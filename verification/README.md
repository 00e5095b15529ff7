# Coordino CNI: a verified model

A Dafny model of the in-memory logic of the Coordino Kubernetes CNI plugin, with proofs about whole
runs. Coordino gives each node a block of the cluster's addresses, each pod an address and a security
identity, compiles network policies to rules over identities, projects the rules to an exact-match map
that an eBPF program consults for every packet, and keeps routes to the other nodes' blocks.

| file | models |
|---|---|
| `NodeIpam.dfy`, `Checkpoint.dfy` | the per-node bitmap allocator; saving and replaying it |
| `BlockIpam.dfy` | the block controller, and the cluster it forms with one allocator per block |
| `Labels.dfy`, `Identities.dfy` | canonical label text and hashes, CNI_ARGS; reference-counted identities |
| `DataPlane.dfy` | endpoint tables and the byte contents of the pinned maps |
| `NodeAgent.dfy`, `PodIdentities.dfy`, `AgentHandler.dfy` | ADD, DEL and reconcile as a state machine; the identities of its pods; the object that performs its steps |
| `SelectorCache.dfy`, `Compiler.dfy`, `PolicyStore.dfy` | selector results, policy compilation, recompilation by concurrent callers |
| `Keys.dfy`, `Sorting.dfy`, `Rules.dfy`, `PolicyMap.dfy` | rule keys, ranking, merging, filtering, map entries and packet verdicts |
| `Routing.dfy`, `RoutedBlocks.dfy` | the BGP and VXLAN backends; a backend fed with the blocks of the controller |
| `EndToEnd.dfy` | theorems across components |

`dafny verify dfyconfig.toml` checks everything.

## How the model is built

Each object the source updates in place is a class with the source's fields. A ghost function `Model()`
gives its value, and every method is proved to perform a step given by a function on values
(`Allocated`, `Acquired`, `WithPod`, `Merge`, ...). The theorems are about those functions, about
sequences of steps (`Run`), and about reference definitions that do not mention the code's data
structures: filtering all pods for the selector cache, the best-ranked matching rule for the sorted
list, a plain table of nodes for the routing backends, the set of products for the policy compiler.

Modelling choices:

- `hex(sha256(text))` is a free constructor: injective and never empty.
- IP addresses and CIDRs are 32-bit words and prefixes rather than their texts; all 32-bit arithmetic of the
  source is written with its wrap-around, and its absence is proved. Only IPv4 is modelled.
- Ranging over a Go map picks an arbitrary remaining key. Where the result depends on the order, the order
  is a parameter or a ghost result.
- Pod-network setup, data-plane programming and the interface index of an ADD are inputs; so are the identity
  allocations of policy compilations that run between the two identity calls of an ADD.
- Locks are modelled by atomic steps: the agent's handlers are atomic apart from those allocations,
  `EvaluateSelector` is two sections, and so are `AddPolicy` and `RemovePolicy`.
- Some definitions are written `forall u :: Unfold(u) ==> ...`. This only keeps them folded for the solver.

## Where the code does not do what one would expect

Each of these is proved, with the exact condition where there is one.

- A failing repeat ADD releases the live address of the tracked pod, and another pod can then get it
  (`NodeAgent.StepTable`, `NodeAgent.FailedRepeatSharesAddress`).
- A request that names `gateway/kube-system` always breaks the gateway's reservation, and so does restoring a
  checkpoint that lists another pod first (`NodeAgent.StepGateway`, `NodeAgent.GatewayNeverGiven`).
- A restore reproduces addresses only if the checkpoint happens to be in address order, although
  `pkg/ipam/checkpoint_test.go:102-112` expects it always (`Checkpoint.SaveRestore`).
- The design document speaks of enforced tiers and a fail-closed posture. The packet program is
  default-allow, matches exactly, and knows no wildcard; tenant and platform rules only allow, so the policies of
  a store drop nothing (`EndToEnd.StoreNeverDrops`), and node-isolation rules, all from 0 to 0, never decide a packet
  that has an identity at either end (`PolicyMap.AnyToAnyInert`).
- Entries are written last-wins over rules sorted best-first, so the lowest-priority rule decides a map key
  (`PolicyMap.LowestPriorityDecides`).
- Recompiling unchanged policies can change their rules, when a selector allocates an identity for labels of a
  pod that an earlier selector matches (`Compiler.RecompileCanDiffer`, `Compiler.ResolveAgainExact`).
- Two rules of one policy can share a rendered key, and one is then lost (`Compiler.CollisionLosesRule`,
  `Rules.NodeVerdictExact`).
- A restarted agent tracks no pod, so its first sweep releases every address the checkpoint restored
  (`NodeAgent.SweepForgetsRestored`).
- `UpdateIdentity` leaves the pinned record of the endpoint with the old identity (`DataPlane.WithIdentityWritten`).
- `SyncRoutes`, and `AddNode` of a known name with another CIDR, leave stale routes (`Routing.SyncExact`, `Routing.AddExact`).

## Model

| member | source | states |
|---|---|---|
| `NodeIpam.NodeAllocator.constructor` | pkg/ipam/ipam.go:29-45 | a new allocator has one clear bit per address of its block and no record |
| `NodeIpam.NodeAllocator.Allocate` | pkg/ipam/ipam.go:48-78 | the scan loop performs the allocation step: an existing record's address, else the least free usable offset, else failure without change |
| `NodeIpam.NodeAllocator.Release` | pkg/ipam/ipam.go:81-98 | clears the bit and deletes the record of the key; an unknown key changes nothing |
| `NodeIpam.NodeAllocator.IsAllocated` | pkg/ipam/ipam.go:101-111 | true exactly when some record holds the address |
| `NodeIpam.NodeAllocator.Reconcile` | pkg/ipam/ipam.go:126-141 | in any visiting order: only active records and their bits remain, and the result lists exactly the addresses of the others, each once |
| `NodeIpam.NodeAllocator.Available` | pkg/ipam/ipam.go:155-166 | counts the clear usable bits; in a consistent allocator free plus recorded addresses make up the usable block |
| `NodeIpam.NoWrap` | pkg/ipam/ipam.go:64-64 | inside a block the 32-bit address arithmetic never wraps, and offset undoes address |
| `NodeIpam.PodKeyExact` | pkg/ipam/ipam.go:52-52 | pods of different name or namespace have different keys, as names hold no slash |
| `NodeIpam.AllocatedExact` | pkg/ipam/ipam.go:48-78 | a new key fails exactly when all usable addresses are recorded; otherwise it gets an unheld address with every smaller usable one held |
| `NodeIpam.AllocateReleaseInverse` | pkg/ipam/ipam.go:48-98 | allocating a new key and releasing it restores bitmap and records |
| `NodeIpam.RetainedExact` | pkg/ipam/ipam.go:126-141 | a sweep partitions the held addresses into those kept and the orphaned ones |
| `NodeIpam.Conservation` | pkg/ipam/ipam.go:155-166 | free usable addresses + records = max(size - 2, 0) |
| `NodeIpam.RunSafe` | pkg/ipam/ipam.go:48-141 | after every run of Allocate, Release and Reconcile a bit is set exactly when one record holds its address, network and broadcast stay free, and the count is conserved |
| `Checkpoint.Save` | pkg/ipam/checkpoint.go:48-65 | in any iteration order each record is written once with its key split at the first slash; when all keys have a slash the result is a snapshot of the allocator |
| `Checkpoint.SplitThenJoin` | pkg/ipam/checkpoint.go:52-57 | splitting at the first slash and rejoining is the identity exactly on keys with a slash |
| `Checkpoint.SplitPodKey` | pkg/ipam/checkpoint.go:52-57 | splitting the key of a pod gives back its name and namespace, when the name holds no slash |
| `Checkpoint.RunSlashKeys` | pkg/ipam/ipam.go:52-52 | in every run all keys have a slash |
| `Checkpoint.Restore` | pkg/ipam/checkpoint.go:113-129 | replays the records through Allocate and stops at the first failure |
| `Checkpoint.RestorePacks` | pkg/ipam/checkpoint.go:113-129 | whatever a checkpoint lists, replaying it into a fresh block puts the first occurrences of keys at offsets 1, 2, ... as far as there is room, and fails exactly when there is not enough |
| `Checkpoint.SaveRestore` | pkg/ipam/checkpoint.go:113-129 | a restart keeps the key set, occupies exactly offsets 1..n, and reproduces every address if and only if record i held offset i + 1 |
| `Checkpoint.RestoreCanSwap` | pkg/ipam/checkpoint.go:121-125 | on every block with two usable addresses: two pods allocated in turn, saved in the opposite order in a list that is a snapshot of that allocator, come back with their addresses swapped |
| `BlockIpam.IPAMController.constructor` | pkg/ipam/controller.go:27-38 | starts with no assignment and block index 0 |
| `BlockIpam.IPAMController.AssignNextBlock` | pkg/ipam/controller.go:52-79 | issues the block at the next index to the node, or fails when all are issued |
| `BlockIpam.IPAMController.AssignBlock` | pkg/ipam/controller.go:41-50 | returns the node's first block, or issues the next one |
| `BlockIpam.IPAMController.AssignSecondaryBlock` | pkg/ipam/controller.go:82-86 | always issues the next block |
| `BlockIpam.IPAMController.ReleaseBlocks` | pkg/ipam/controller.go:89-94 | forgets the node's blocks and does not move the index back |
| `BlockIpam.IPAMController.IsBlockAvailable` | pkg/ipam/controller.go:121-128 | true exactly when a further assignment to any node would succeed |
| `BlockIpam.BlockPlace` | pkg/ipam/controller.go:60-67 | every block is aligned, inside the cluster CIDR, and its address is computed without 32-bit wrap |
| `BlockIpam.BlocksDisjoint` | pkg/ipam/controller.go:60-67 | blocks with different indices are disjoint |
| `BlockIpam.IssuedBlocksSafe` | pkg/ipam/controller.go:41-94 | over every run of assign, secondary assign and release, all blocks ever issued are aligned, inside the cluster CIDR and pairwise disjoint |
| `BlockIpam.AnswersSafe` | pkg/ipam/controller.go:41-86 | over every run: a returned block is one of the node's afterwards; blocks returned to different nodes never overlap, across releases; a block returned by a secondary assignment, or to a node without blocks, overlaps none returned before |
| `BlockIpam.AssignAgain` | pkg/ipam/controller.go:41-50 | until a node is released, assigning to it again returns the same block |
| `BlockIpam.AnswerFails` | pkg/ipam/controller.go:52-58 | an assignment fails exactly when the node has no block to return and the issued blocks fill the cluster CIDR |
| `BlockIpam.ReleaseExact` | pkg/ipam/controller.go:89-94 | a release takes all blocks of that node and of no other |
| `BlockIpam.ClusterAddressesUnique` | pkg/ipam/controller.go:41-94 | with one bitmap allocator per issued block, over every run no two pods of the cluster hold one address and none holds its block's network or broadcast address |
| `Labels.LabelText` | pkg/policy/identity.go:153-167 | collecting keys in any order, sorting and concatenating gives the canonical text of the label map |
| `Labels.OrderIrrelevant` | pkg/policy/identity.go:154-158 | the sorted key list does not depend on the order the map was ranged over |
| `Labels.RoundTrip` | pkg/policy/identity.go:160-166 | decoding the text gives the label map back if and only if keys have no '=' and values no ';' |
| `Labels.HashInjective` | pkg/policy/identity.go:167-169 | on those maps equal hashes mean equal maps, for both label hashes |
| `Labels.HashCollision` | pkg/policy/identity.go:160-166 | outside that domain two different label maps can share a hash: a concrete pair |
| `Labels.ParseCNIArgs` | cmd/cni-plugin/main.go:182-196 | the loop over entries computes the parsed map: an entry counts only if it holds exactly one '=', the last of a key wins |
| `Labels.ParseRender` | cmd/cni-plugin/main.go:182-196 | parsing a rendered list of clean pairs recovers exactly those pairs |
| `Labels.ParsedExact` | cmd/cni-plugin/main.go:182-196 | a key has a value exactly when the last entry "key=value" about it says so; entries with no '=' or several count for nothing |
| `Labels.JoinSplit` | cmd/cni-plugin/main.go:188-190 | joining the parts of a split gives the string back |
| `Labels.ParsedClean` | cmd/cni-plugin/main.go:188-194 | no parsed key or value contains '=' or ';' |
| `Labels.RequestLabelsReadable` | cmd/node-agent/main.go:320-326 | every label map an ADD builds from CNI_ARGS can be read back from its text, so its hash identifies it |
| `Labels.PodLabelsExact` | cmd/node-agent/main.go:320-326 | each argument is a label with its value; "coordino.io/pod-name" and "coordino.io/ns" are the pod's name and namespace unless an argument overrides them; there are no other labels |
| `Identities.IdentityAllocator.constructor` | pkg/policy/identity.go:30-36 | no identities, next number 1 |
| `Identities.IdentityAllocator.AllocateIdentity` | pkg/policy/identity.go:39-66 | one more reference to the identity with this hash, or a new one with the next number |
| `Identities.IdentityAllocator.ReleaseIdentity` | pkg/policy/identity.go:69-85 | one reference less, collected at zero, an error for an unknown number |
| `Identities.IdentityAllocator.GetIdentityByLabels` | pkg/policy/identity.go:97-108 | finds the live identity with the hash of the labels |
| `Identities.AcquiredInv` | pkg/policy/identity.go:39-66 | keeps the two tables inverse to each other and adds exactly one reference to exactly the returned identity |
| `Identities.DroppedInv` | pkg/policy/identity.go:69-85 | keeps the tables inverse and takes exactly one reference from exactly that identity |
| `Identities.AcquireDropInverse` | pkg/policy/identity.go:39-85 | acquire then release restores live identities, hashes and counts; only the next number may advance |
| `Identities.IssuedNumber` | pkg/policy/identity.go:51-52 | creation n issues n; the wildcard 0 is issued exactly by the 2^32-th creation |
| `Identities.IssuedInOrder` | pkg/policy/identity.go:39-85 | over every run with fewer than 2^32 creations the issued numbers are 1, 2, 3, ... |
| `Identities.IdentityIsLabels` | pkg/policy/identity.go:39-66 | after every run over such label maps, two live identities are equal exactly when their label maps are |
| `DataPlane.MapManager.EnsureMap` | pkg/dataplane/maps.go:95-103 | creates an empty map, keeps an existing one |
| `DataPlane.MapManager.UpdateMapEntry` | pkg/dataplane/maps.go:144-153 | writes one entry of an existing map, fails otherwise |
| `DataPlane.MapManager.DeleteMapEntry` | pkg/dataplane/maps.go:156-165 | deletes one entry of an existing map, fails otherwise |
| `DataPlane.ReadBack` | pkg/dataplane/maps.go:144-180 | a look-up sees the last write or deletion of exactly its entry; a write to a missing map is lost |
| `DataPlane.EBPFDataPlane.LoadPrograms` | pkg/dataplane/loader.go:80-91 | the loop creates the default maps that are missing; existing maps keep their entries |
| `DataPlane.EBPFDataPlane.AddPodEndpoint` | pkg/dataplane/loader.go:117-151 | writes endpoint table, identity map and both pinned maps for the address |
| `DataPlane.EBPFDataPlane.RemovePodEndpoint` | pkg/dataplane/loader.go:154-171 | removes the address from all four |
| `DataPlane.EBPFDataPlane.UpdateIdentity` | pkg/dataplane/loader.go:210-229 | rewrites the identity of an address; fails when the pinned map is missing |
| `DataPlane.WithEndpointMirrored` | pkg/dataplane/loader.go:117-151 | adding keeps the pinned identity map the exact byte image of the in-memory one |
| `DataPlane.WithoutEndpointMirrored` | pkg/dataplane/loader.go:154-171 | so does removing |
| `DataPlane.WithIdentityMirrored` | pkg/dataplane/loader.go:210-229 | re-labelling keeps the tables in step exactly when the address is a known endpoint |
| `DataPlane.EndpointRecord` | pkg/dataplane/loader.go:141-146 | an endpoint's record is 16 bytes: bytes 0-3 read as the interface index, bytes 4-7 as the identity, the rest is zero |
| `DataPlane.WithEndpointWritten` | pkg/dataplane/loader.go:117-151 | adding keeps the pinned records those of the endpoint table, which gains exactly this endpoint |
| `DataPlane.WithIdentityWritten` | pkg/dataplane/loader.go:210-229 | the packet program sees a new identity, but the endpoint's pinned record is left behind unless the identity is the old one |
| `DataPlane.AddRemoveInverse` | pkg/dataplane/loader.go:117-171 | removing undoes adding, down to the bytes |
| `DataPlane.WordRoundTrip` | pkg/dataplane/loader.go:134-146 | network-order keys and little-endian values decode to the words they encode |
| `DataPlane.ByteOrder` | pkg/dataplane/loader.go:131-146 | addresses are written highest byte first, values lowest byte first |
| `DataPlane.KernelSees` | pkg/dataplane/ebpf/src/cni.c:117-121 | the packet program reads the identity of every programmed address and 0 for all others |
| `NodeAgent.StepTable` | cmd/node-agent/main.go:264-430 | from a consistent state a step of ADD, DEL, reconcile or policy compilation, with any failures, leads to a consistent one if and only if it is not a failing ADD of an already tracked pod |
| `NodeAgent.StepLeavesOthers` | cmd/node-agent/main.go:312-430 | ADD and DEL of one pod, failing or not, leave tracking and address of every pod of other name or namespace as they were |
| `NodeAgent.DelForgets` | cmd/node-agent/main.go:396-430 | after a DEL, tracked or not before, the pod has no tracking, no recorded address, and its address no identity or endpoint |
| `NodeAgent.RunTable` | cmd/node-agent/main.go:264-430 | over every run without such a step, started with or without a checkpoint, one whose replay stops half-way included: tracked pods hold their allocator records, no two share an address, and the IP-to-identity map, in memory and pinned, is exactly that of the endpoint table |
| `NodeAgent.FailedRepeatSharesAddress` | cmd/node-agent/main.go:352-357 | the failing case, on every block with two usable addresses: ADD a, a failing repeat of it, ADD b from a fresh start leave both pods tracked with one address |
| `PodIdentities.FailedAddUndone` | cmd/node-agent/main.go:327-373 | an ADD that fails for an unallocated pod restores pool, endpoints and data plane; each hash has exactly its old references and those that interleaved policy compilations acquired, identities keep their numbers, and without interleaving only the next number may advance |
| `PodIdentities.AddThenDelUndone` | cmd/node-agent/main.go:327-427 | so does an ADD followed by the DEL of that pod |
| `NodeAgent.StepGateway` | cmd/node-agent/main.go:264-430 | the gateway's reservation survives a step if and only if the step does not name gateway/kube-system |
| `NodeAgent.GatewayNeverGiven` | cmd/node-agent/main.go:107-118 | in all runs without such requests no ADD hands out the gateway address it advertises, if and only if the agent started without a checkpoint, or with one that lists the gateway first, or on a block without usable addresses |
| `NodeAgent.RestartGateway` | cmd/node-agent/main.go:108-118 | after a start with any checkpoint the gateway gets that address if and only if the block has a usable address and the checkpoint is absent, empty or lists the gateway first |
| `NodeAgent.SweepExact` | cmd/node-agent/main.go:264-287 | reconcile leaves exactly the tracked pods and the gateway recorded, frees exactly the leaked addresses, and does not change the IP-to-identity map, whichever endpoints fail to be reprogrammed |
| `NodeAgent.SweepForgetsRestored` | cmd/node-agent/main.go:264-287 | after any start the first sweep releases every reservation the checkpoint restored and leaves at most the gateway's |
| `NodeAgent.SweepRepairs` | cmd/node-agent/main.go:274-287 | from any data plane, a sweep programs each pod it reaches that has an address of its own with its identity and interface index 0, as the packet program sees |
| `PodIdentities.RunIdentities` | cmd/node-agent/main.go:327-427 | over every run with fewer than 2^32 creations, repeats, failures and interleaved policy compilations included, references cover tracked users, so no identity in use is collected and none is 0 |
| `PodIdentities.AgentIssuesInOrder` | pkg/policy/identity.go:51-63 | the numbers issued over a whole agent run are 1, 2, 3, ...: none is reused |
| `PodIdentities.SharingIsEqualLabels` | cmd/node-agent/main.go:320-327 | in every run whose ADDs come from the plugin, with any selectors allocated for policies in between, two tracked pods share an identity exactly when the label maps of their ADDs are equal |
| `PodIdentities.SharingIsEqualHashes` | pkg/policy/identity.go:39-85 | in every run whatsoever with fewer than 2^32 creations, they do exactly when the label hashes of their ADDs are equal |
| `PodIdentities.PodsNeverShare` | cmd/node-agent/main.go:320-327 | in every run whose ADDs come from CNI_ARGS that name neither of the two added labels, no two tracked pods, in particular none of different name or namespace, share an identity |
| `AgentHandler.NodeAgentHandler.constructor` | cmd/node-agent/main.go:102-118 | restores the checkpoint if there is one, then reserves the gateway |
| `AgentHandler.NodeAgentHandler.Attach` | cmd/node-agent/main.go:332-382 | the address, network, data-plane and tracking part of an ADD with its rollbacks |
| `AgentHandler.NodeAgentHandler.HandleAdd` | cmd/node-agent/main.go:312-394 | performs the ADD step on labels built from name, namespace and arguments, and advertises base + 1 as gateway |
| `AgentHandler.NodeAgentHandler.HandleDel` | cmd/node-agent/main.go:396-430 | performs the DEL step, with best-effort release for an untracked pod |
| `AgentHandler.NodeAgentHandler.Reconcile` | cmd/node-agent/main.go:264-287 | performs the reconcile step in any order and returns exactly the released addresses |
| `SelectorCache.SelectorCache.AddPod` | pkg/policy/selector_cache.go:47-71 | replaces the pod in the label table, the inverse index and every cached result its labels match |
| `SelectorCache.SelectorCache.RemovePodInternal` | pkg/policy/selector_cache.go:80-99 | takes the pod out of all three, dropping empty index entries |
| `SelectorCache.SelectorCache.RemovePod` | pkg/policy/selector_cache.go:74-78 | the same, under the lock |
| `SelectorCache.SelectorCache.EvaluateSelector` | pkg/policy/selector_cache.go:102-132 | a hit returns the cached set, a miss computes and stores it |
| `SelectorCache.SelectorCache.InvalidateSelector` | pkg/policy/selector_cache.go:135-141 | forgets result and selector |
| `SelectorCache.SelectorCache.MatchesSelector` | pkg/policy/selector_cache.go:144-155 | true exactly when every selector entry is among the labels |
| `SelectorCache.SelectorCache.HashLabels` | pkg/policy/selector_cache.go:169-189 | empty for the empty map, else the hash of the canonical text |
| `SelectorCache.SelectsExact` | pkg/policy/selector_cache.go:144-155 | a selector selects exactly the pods whose labels hold each of its entries |
| `SelectorCache.PartSelects` | pkg/policy/selector_cache.go:144-155 | any part of a pod's labels selects it |
| `SelectorCache.InvalidateForgets` | pkg/policy/selector_cache.go:135-141 | invalidating forgets the results under that hash and nothing else |
| `SelectorCache.CacheExact` | pkg/policy/selector_cache.go:47-155 | after every interleaving of critical sections, the two sections of a miss included, hits and fills answer with exactly the pods that match now, the current pods are those last added and not removed, and podsByLabels is the exact inverse index |
| `SelectorCache.CollisionExact` | pkg/policy/selector_cache.go:47-132 | every evaluation after every run over a set of selectors is right if and only if the hash tells them apart |
| `SelectorCache.SourceHasherDistinguishes` | pkg/policy/selector_cache.go:169-189 | the hash tells all readable label maps apart |
| `SelectorCache.ConfusedSelectors` | pkg/policy/selector_cache.go:169-189 | for two label maps the hash confuses, a run of two AddPod and one evaluation after which a selector is answered with the other's pods |
| `Keys.KeyExact` | pkg/policy/compiler.go:329-329 | two rules render to one key exactly when they agree on all four parts, or one has a negative port whose sign the other's protocol ends in |
| `Sorting.FirstOfSorted` | pkg/policy/compiler.go:313-323 | reading the stably sorted list front to back finds the best-ranked match of the unsorted one, the earliest among equals |
| `Sorting.StableSortContents` | pkg/policy/compiler.go:313-323 | sorting permutes |
| `Rules.RuleOrder` | pkg/policy/compiler.go:313-323 | the comparison by tier, specificity and name is a total preorder |
| `Rules.MergeAndPrioritize` | pkg/policy/compiler.go:304-341 | concatenates the policies that are not nil, sorts, and keeps the first rule of each rendered key |
| `Rules.FilterRulesForNode` | pkg/policy/compiler.go:293-301 | keeps in order the rules with a wildcard or a local identity |
| `Rules.NodeRulesExact` | pkg/policy/compiler.go:293-301 | a node with identities is given exactly the rules that cover some flow with an end on it |
| `Rules.MergeShape` | pkg/policy/compiler.go:304-341 | one input rule per input key, no key lost or repeated, best rank first |
| `Rules.MergedRanking` | pkg/policy/compiler.go:313-355 | in the merge a smaller tier comes first; in one tier the rule with more of source, destination and port non-zero; and then names do not decrease in lexicographic order |
| `Rules.MergedFirst` | pkg/policy/compiler.go:304-341 | for every property the key determines, the first merged rule with it is the best-ranked input rule with it |
| `Rules.MergeOrderFree` | pkg/policy/compiler.go:304-341 | if rules agreeing on key, tier and name agree on the verdict, inputs with the same rules in any grouping, order or repetition give each key the same tier, name and verdict |
| `Rules.AllAllowConsistent` | pkg/policy/platform_rules.go:33-68 | rules that only allow meet that condition |
| `Rules.PlatformExact` | pkg/policy/platform_rules.go:33-68 | platform rules are tier 1 allows for everyone, and cover exactly "UDP" and "TCP" port 53 and the monitoring port on "TCP", where 0 means any |
| `Rules.MergeIdempotent` | pkg/policy/compiler.go:304-341 | merging a merge changes nothing |
| `Rules.MergedFirstExact` | pkg/policy/compiler.go:304-341 | merging keeps the best match of any property if and only if there is none or it is the best-ranked rule with its rendered key |
| `Rules.NodeVerdictExact` | pkg/policy/compiler.go:293-341 | sorting, deduplicating and filtering for a node preserve the first-match decision of a flow touching the node if and only if no better-ranked rule renders to the key of the rule that should decide |
| `Rules.NodeVerdictPreserved` | pkg/policy/compiler.go:293-341 | in particular when no two different selectors share a key |
| `Rules.PortsNonNegative` | pkg/policy/compiler.go:329-329 | non-negative ports exclude such collisions |
| `PolicyMap.CompileRulesToMapEntries` | pkg/policy/ebpf_writer.go:72-105 | the loop computes the last-write-wins entry map |
| `PolicyMap.EntryIsLast` | pkg/policy/ebpf_writer.go:72-105 | an entry exists exactly when a rule projects to its key, and holds the verdict of the last such rule |
| `PolicyMap.PacketVerdict` | pkg/dataplane/ebpf/src/cni.c:117-153 | with expressible rules a packet is dropped exactly when the highest-priority input rule with its exact key does not allow |
| `PolicyMap.OneRuleVerdict` | pkg/policy/ebpf_writer.go:82-91 | a rule for "tcp", "udp" or "icmp" drops exactly the packets of protocol 6, 17 or 1 with its identities and port, if it does not allow |
| `PolicyMap.ExactIsFirstMatch` | pkg/dataplane/ebpf/src/cni.c:123-137 | this is the first-match decision if and only if the first-match winner is absent, has the packet's own key, or is a wildcard rule with the outcome of the exact key or default |
| `PolicyMap.WildcardNotEnforced` | pkg/dataplane/ebpf/src/cni.c:123-137 | a wildcard deny is not enforced between two identities, although first match denies |
| `PolicyMap.AnyToAnyInert` | pkg/dataplane/ebpf/src/cni.c:123-137 | rules from 0 to 0 never decide a packet with an identity at either end |
| `PolicyMap.OtherSpellingsInert` | pkg/policy/ebpf_writer.go:82-91 | rules whose protocol is not spelt tcp, udp or icmp, the platform's included, never decide such a packet |
| `PolicyMap.LowestPriorityDecides` | pkg/policy/ebpf_writer.go:102-102 | in general an entry holds the verdict of the lowest-priority merged rule with its key |
| `PolicyMap.DenyOverwritten` | pkg/policy/ebpf_writer.go:89-102 | a platform rule overwrites a deny of a higher tier |
| `Compiler.PolicyCompiler.ResolveSelectorToIdentities` | pkg/policy/compiler.go:178-205 | the distinct live identities of the matching pods, or one allocated for the selector's own labels |
| `Compiler.PolicyCompiler.ResolvePeers` | pkg/policy/compiler.go:207-230 | the wildcard for no peers, else the union over peers without the IP blocks |
| `Compiler.ProductRules` | pkg/policy/compiler.go:127-142 | the nested loops emit exactly the target x peer x port product |
| `Compiler.PolicyCompiler.CompilePolicy` | pkg/policy/compiler.go:113-176 | resolves targets, then ingress, then egress, and emits exactly the union of their products |
| `Compiler.CompileNodeIsolationPolicy` | pkg/policy/compiler.go:233-279 | emits exactly the tier 0 rules from 0 to 0 with the policy's name whose action and protocol and port are those of one of its rules, ANY/0 for a rule without ports |
| `Compiler.CollisionLosesRule` | pkg/policy/compiler.go:329-333 | the failing case of the merge: a direction with ports -80/tcp and 80/tcp- emits two rules with one key, and the merge drops one that covered a flow |
| `Compiler.ResolveAgainExact` | pkg/policy/compiler.go:178-205 | resolving a list of selectors again gives each the same identities if and only if no selector allocates an identity for labels carried by a pod that an earlier one matches |
| `Compiler.ResolvesExact` | pkg/policy/compiler.go:178-205 | under the same condition, and only then, each resolved to what it stands for in the final state |
| `Compiler.NeededLiveUndisturbed` | pkg/policy/compiler.go:184-202 | the condition holds when every cached pod that a selector matches and that carries the labels of one has a live identity |
| `Compiler.CompileMeaning` | pkg/policy/compiler.go:113-230 | when no selector of the policy allocates an identity for labels of a pod that an earlier one matches, the emitted set is the declarative union read off the final state, although identities are allocated on the way |
| `Compiler.CompiledRules` | pkg/policy/compiler.go:113-176 | then, field by field: a rule is emitted exactly when it allows, in tier 2 and with the policy's name and namespace, from a peer to a target on a port of an ingress direction or from a target to a peer on a port of an egress direction; no peers means 0, no ports ANY/0 |
| `Compiler.RecompileSame` | pkg/policy/compiler.go:113-230 | under that condition compiling the unchanged policy again gives the same rules |
| `Compiler.RecompileCanDiffer` | pkg/policy/compiler.go:196-202 | without it recompiling can change the rules: one cached pod without an identity, selected by "all pods" and by its own labels |
| `PolicyStore.CompiledIsCurrent` | pkg/policy/policy_store.go:39-123 | in every interleaving of the sections of AddPolicy and RemovePolicy, with pods and identities changing in between, whenever no caller is between its sections and a recompilation has happened, the compiled rules are the merge of the platform rules and of exactly the current policies compiled in some order; version = 1 + recompilations |
| `PolicyStore.StoredPolicies` | pkg/policy/policy_store.go:39-65 | in every interleaving, for namespaces without slash, the stored policies are exactly those last added under their name and namespace and not removed since, each once |
| `PolicyStore.SectionsByPair` | pkg/policy/policy_store.go:39-65 | adding or removing one name and namespace leaves every other policy as it was, and a removal finds a policy exactly when that pair is stored |
| `PolicyStore.StoreKeyExact` | pkg/policy/policy_store.go:41-41 | policies of different name or namespace have different keys |
| `PolicyStore.CompiledMeansPolicies` | pkg/policy/policy_store.go:88-123 | then, if the last build was undisturbed, the rules merged are exactly the platform's and the declarative meaning of the current policies |
| `PolicyStore.StoreDecides` | pkg/policy/policy_store.go:39-151 | and with non-negative ports the first rule covering a flow in what a node at one of its ends gets is a best-ranked one among them, or there is none |
| `PolicyStore.PolicyStore.StorePolicy` | pkg/policy/policy_store.go:40-48 | the first section of AddPolicy: stores the policy and nothing else |
| `PolicyStore.PolicyStore.DropPolicy` | pkg/policy/policy_store.go:55-62 | the first section of RemovePolicy: removes a known policy, reports an unknown one |
| `PolicyStore.PolicyStore.Recompile` | pkg/policy/policy_store.go:88-123 | the second section of both: merges the platform rules and every policy, compiled in any order, and counts up the version |
| `PolicyStore.PolicyStore.AddPolicy` | pkg/policy/policy_store.go:39-51 | its two sections in sequence: stores the policy, then rebuilds from the new table |
| `PolicyStore.PolicyStore.RemovePolicy` | pkg/policy/policy_store.go:54-65 | an unknown policy is an error without change, a known one is removed and the rest recompiled |
| `PolicyStore.PolicyStore.GetCompiledForNode` | pkg/policy/policy_store.go:133-151 | the compiled rules relevant to the node, none before the first compilation |
| `PolicyStore.RecompileOrderFree` | pkg/policy/policy_store.go:105-111 | after an undisturbed compilation, recompiling unchanged policies in any other order gives the same rules |
| `PolicyStore.RecompileDecidesAlike` | pkg/policy/policy_store.go:105-114 | and the merged result gives every key the same tier, name and verdict |
| `Routing.BGPBackend.AddNode` | pkg/routing/bgp.go:57-80 | the add step, refused before Init |
| `Routing.BGPBackend.RemoveNode` | pkg/routing/bgp.go:83-97 | the remove step |
| `Routing.BGPBackend.UpdateNode` | pkg/routing/bgp.go:100-125 | the update step |
| `Routing.BGPBackend.SyncRoutes` | pkg/routing/bgp.go:128-166 | the synchronising step, in any order |
| `Routing.VXLANBackend.AddNode` | pkg/routing/vxlan.go:71-99 | the add step with its forwarding entry, refused before Init |
| `Routing.VXLANBackend.RemoveNode` | pkg/routing/vxlan.go:102-117 | the remove step |
| `Routing.VXLANBackend.UpdateNode` | pkg/routing/vxlan.go:120-146 | the update step |
| `Routing.VXLANBackend.SyncRoutes` | pkg/routing/vxlan.go:149-189 | the synchronising step, in any order |
| `Routing.AddExact` | pkg/routing/bgp.go:57-80 | adding keeps routes and nodes in step exactly when the CIDR is free and a known node keeps its own |
| `Routing.RemoveKeeps` | pkg/routing/bgp.go:83-97 | removing always does |
| `Routing.UpdateExact` | pkg/routing/bgp.go:100-125 | updating does exactly when no other node has the new CIDR |
| `Routing.SyncExact` | pkg/routing/bgp.go:128-166 | SyncRoutes always installs exactly the desired nodes; routes match exactly when desired CIDRs are distinct and every surviving node's old CIDR is still wanted |
| `Routing.SyncLeavesStale` | pkg/routing/bgp.go:149-163 | the failing case: a surviving node with a new CIDR leaves its old route behind |
| `Routing.RunRefines` | pkg/routing/bgp.go:57-166 | over every safe run a backend refines the abstract node table and its routes mirror it |
| `Routing.RoutesLeadToNodes` | pkg/routing/bgp.go:57-166 | then the route for a node's CIDR has the node's address as next hop and its name, and each route is some node's |
| `Routing.DesiredExact` | pkg/routing/bgp.go:132-138 | SyncRoutes wants exactly the listed nodes other than the local one, the last of each name |
| `Routing.BackendsAgree` | pkg/routing/vxlan.go:71-189 | over every safe run, each backend ranging over its maps in its own order, BGP and VXLAN hold the same nodes, and the same routes up to the interface name |
| `Routing.OverlayRunMirrors` | pkg/routing/vxlan.go:71-189 | over every run, safe or not, the forwarding table mirrors the nodes |
| `Routing.MacRepeats` | pkg/routing/vxlan.go:82-82 | the simulated MAC addresses are not unique |
| `RoutedBlocks.PrimaryBlocksExact` | pkg/ipam/controller.go:41-94 | over every joint run of block assignments, releases and routing requests that name current primary blocks, routes mirror nodes, and a further such request keeps it so if and only if no node it finds installed has been given another block meanwhile |
| `RoutedBlocks.ReassignLeavesStale` | pkg/routing/bgp.go:141-163 | the failing case on every cluster with two blocks: assign, add, release, assign, then synchronise |
| `EndToEnd.PacketBetweenPods` | pkg/dataplane/ebpf/src/cni.c:117-153 | after every run without failing repeats, from a checkpoint or not, a packet between two tracked pods is dropped exactly when the best rule for their identities, protocol and port does not allow it |
| `EndToEnd.OtherAddressUnknown` | pkg/dataplane/ebpf/src/cni.c:117-121 | an address of no tracked pod reads as identity 0 |
| `EndToEnd.StoreNeverDrops` | pkg/policy/policy_store.go:88-123 | whatever policies callers add and remove, in every interleaving and with any pods and identities, the map built from the store's result drops no packet |
| `EndToEnd.ClusterPodsDistinct` | pkg/ipam/controller.go:41-94 | agents on different issued blocks never track pods with one address, over every pair of runs, failing repeats and restarts from any checkpoints included |
| `EndToEnd.TrackedInside` | cmd/node-agent/main.go:107-430 | in every such run a tracked address is neither the network nor the broadcast address of its block, nor outside it |

## Left out

- NodeIpam.NodeAllocator.Allocate: does not model the allocation time, nor the text of the error.
- Compiler.PolicyCompiler.CompilePolicy: states the set of emitted rules, not their order or repetition, which depend on Go's map order and do not affect the merge.
- DataPlane.EBPFDataPlane.AddPodEndpoint: does not model IPv6 addresses, for which it returns an error and changes nothing; an ADD or a sweep treats that outcome as a failure chosen by the environment.
- PolicyStore.CompiledIsCurrent: a recompilation is one step; identity allocations of ADDs that run during it, under the allocator's own lock, are not interleaved with it.
- Compiler.RecompileSame: one way only for rules. Different identities can still give the same rules, for example when a policy has no directions or another peer contributes the same identity; the exact condition is that of Compiler.ResolveAgainExact, for identities.
- Identities.IdentityAllocator.AllocateIdentity: asks that no hash leads to a collected identity, which would be a nil dereference; compilations keep this whatever the counter does, and runs with fewer than 2^32 creations never break it.
- Maps handed over by reference: label and selector maps are stored by value here, so a caller that changes one afterwards is not modelled. Identity records are values too.
- The hit path of `EvaluateSelector` copies the result after giving up the read lock; here a hit is atomic.
- `Nodes` of an identity and its node-reference methods, cache statistics, utilisation as a float, timestamps and versions taken from the clock.
- Controller configurations with a block size below the cluster prefix or above 32, for which the source panics or builds a nil mask.
- Parsing of CIDR strings, JSON, the checkpoint file, the agent's socket protocol, HTTP and the controller process.
- Pod network namespaces and interfaces, program loading and pinning, flow events, packet bounds checks, the iptables data plane, kernel map writes of `EBPFWriter` (stubs), WireGuard, metrics, host policy, and CHECK.
- `AdvertiseRoute` and `Close` of the routing backends, peer state and health.
- PolicyStore.StoredPolicies: about namespaces without a slash, as Kubernetes has them; with slashes two pairs can share the key `namespace/name`. The same goes for pod names in `name/namespace` keys.
- The change callback of the policy store.
