# Verified model of the resource-aware NRI plugins

The repository places related pods on the same NUMA node and hands out CPUs. This project models its decision-making
code in Dafny 4.11 and proves what it does, for every input and every run. `dafny verify dfyconfig.toml` checks it all.

The pipeline, from the reported process pairs to the containers' cpusets:

- **Affinity servers** (`UnionFind`, `Chains`, `AffinityReply`, `NetRelaServer`, `NumafastServer`). A global parent array
  with recursive path compression is filled from an adjacency test over pods. The classes it ends up with are exactly the
  connected components of that relation; the reply's groups are the components of two or more pods, whatever order the Go
  map of classes is iterated in (the loop picks any remaining key).
- **Topology** (`NumaTopology`, `Text`). CPUs are split over nodes, printed as comma-separated decimals and split again.
- **Agent, network-affinity policy** (`CustomResource`, `Cluster`, `NumafastAllocator`, `NetAffinityRun`, `Reconciliation`,
  `NumafastUpdate`). Replies are merged into the node entry, containers get CPUs from one rotating cursor per NUMA node,
  deleted pods are compacted away. `NumafastUpdate.Tick` is one reconciliation end to end;
  `NetAffinityRun.RunKeepsWellFormed`, `NetAffinityRun.RunRefinesTable` and `Reconciliation.FreshRunsBringTogether` are
  about every run of them. `StartUp` is what these runs start from.
- **Agent, load-balancing policy** (`LoadBalancer`, `LoadBalancingRun`). One main cursor that stops at a node boundary and
  one overflow cursor. `LoadBalancingRun.Rebalance` is one update end to end.

Beside it: the resctrl schemata printer, parser and memo (`Schemata`), the re-opening watch (`ObjectWatch`), configuration
precedence (`ConfigWatcher`), the pod cache (`PodCache`) and the benchmark's sliding window (`SlidingWindow`).

Code that updates state is modelled by methods and classes, each proved equal to a function of the old state; the main
results are lemmas about those functions. A Go panic (an index out of range, an integer division by zero) is a result
(`ok == false`, `DivideByZero`), and each contract says exactly when it happens. Every lemma switches automatic
induction off: Dafny 4.11 adds its hypothesis even to lemmas that do not recurse, where it can be inconsistent for
sequences of datatypes, so each induction here is written out. All counters of the form `x = (x + 1) % n` are
`RoundRobin.Cycle`.

Where the code does less than its comments or names suggest, the code is what is modelled; each case has its exact
condition and an input at which it happens:

- The overflow cursor of the load balancer starts at the node's *number* (pkg/agent/agent.go:363), not at its first CPU, so
  the promise that a pod never crosses NUMA nodes (comment at line 362) fails; `LoadBalancer.ConfinedExactly` and
  `LoadBalancer.EntryIsLocalExactly` give the condition.
- Guaranteed pods are given CPUs of their own, counted on by one cursor, but a pod that does not fit what is left of its
  node always gets a CPU that it or an earlier pod already has: `LoadBalancingRun.IndicesExclusiveExactly` and, on the
  written texts, `LoadBalancingRun.WrittenExclusiveExactly`. Both failures happen with two nodes of four CPUs and pods that
  ask for four and for five: `LoadBalancingRun.BothGetCpu1`.
- A Guaranteed pod that asks for no whole CPU is given the number of a node that does not exist when all CPUs are taken:
  `LoadBalancingRun.ServedOn` has the condition, `LoadBalancingRun.NumberedPastTheNodes` the input.
- The whitelist compares `namespace-name` keys, which do not determine the pod: listing pod b-c of namespace a also manages
  pod c of namespace a-b (`LoadBalancer.UnlistedPodIsManaged`). They do exactly when no namespace in use starts with another
  one and a dash: `LoadBalancer.KeysDetermineExactly`.
- A pod the load balancer sends to a node "occupies" all of it (comment at pkg/agent/agent.go:411), but Guaranteed pods'
  CPUs are on every node below the cursor: `LoadBalancingRun.NodeTakenExactly`, and two such pods are kept apart only when
  there are no more of them than nodes: `LoadBalancingRun.OthersApartExactly`. One Guaranteed pod is enough:
  `LoadBalancingRun.FirstOtherPodMeetsGuaranteed`.
- A reply moves the first entry of a pod's *name* (pkg/agent/agent.go:494), but containers are placed for name and namespace
  (lines 517 and 544). A linked pod whose name has an entry of another namespace is not placed:
  `Reconciliation.AssignedPodIsPlacedExactly`, `Reconciliation.HiddenPodStaysHidden`, with one entry
  `Reconciliation.OtherNamespaceHidesPod`.
- Start-up fills in the resource only when it has just created it (pkg/agent/agent.go:784, pkg/agent/config-interface.go:79-81);
  one that exists keeps its pods and its topology, whatever they are: `StartUp.ReadyAfterStartUpExactly`. So a change of
  policy inherits the other policy's entries: `StartUp.PolicyChangeHidesPod`.
- Under network affinity a pod that is not Guaranteed is meant to have its NUMA node to itself (comment at
  pkg/agent/agent.go:514), and has exactly when no other entry asks for a CPU there:
  `NetAffinityRun.WholeNodeAloneExactly`; `NetAffinityRun.TwoPodsShareANode` is two such pods on one node.
- The watch that should re-open never does after a failure, because scheduling returns early while there is a result
  channel (pkg/agent/watch/object.go:148-153): `ObjectWatch.StaysOpenAlongRuns`, `ObjectWatch.NeverReopens`, and after one
  error event `ObjectWatch.OneErrorIsFinal`.
- A server that has not yet been asked for its topology divides by zero when some pod has a partner:
  `AffinityReply.DividesByZeroExactly`, with two pods sharing a pair `NetRelaServer.FirstRequestDividesByZero`.
- Reading a schemata file back fails for an `L3PRI` row of 65536 characters or more, the size limit of Go's line scanner:
  `Schemata.RoundTrip`; 16383 ids are always too many, `Schemata.ManyIdsAreUnreadable`.
- The agent's flat CPU list repeats a name exactly when two nodes have no CPU (each reads as one empty name):
  `NumaTopology.AllCpusDistinctExactly`, `NumaTopology.TwoEmptyNodesRepeatAName`. On such a node a Guaranteed container
  that asks for a single CPU gets none: `NetAffinityRun.ServedInFullExactly`.

## Model

| member | source | states |
|---|---|---|
| UnionFind.NoCycle | cmd/netRelaServer/main.go:295-308 | in a ranked parent array following parents never returns to an element, except a root to itself |
| UnionFind.FollowReachesRoot | cmd/netRelaServer/main.go:295-300 | following parents reaches the root in at most rank steps, so the recursion of find ends |
| UnionFind.RootIgnoresRank | cmd/netRelaServer/main.go:295-300 | the root is the same whatever rank witnesses that the array is a forest |
| UnionFind.CompressionKeepsRoot | cmd/netRelaServer/main.go:295-300 | pointing an element at its root keeps the forest and every element's root |
| UnionFind.LinkMergesClasses | cmd/netRelaServer/main.go:302-308 | hanging one root below another keeps a forest and merges exactly these two classes |
| UnionFind.DisjointSets.Init | cmd/netRelaServer/main.go:289-293 | 0..n become singletons (index n is written too), the rest of the array is untouched |
| UnionFind.DisjointSets.Find | cmd/netRelaServer/main.go:295-300 | returns the representative, points exactly the elements on the path at it, changes no representative |
| UnionFind.DisjointSets.Join | cmd/netRelaServer/main.go:302-308 | the class of x takes y's representative, no other class changes |
| Chains.MergeAddsEdge | cmd/netRelaServer/main.go:183-189 | if labels name the components of a graph, merging two labels names those of the graph with one more edge |
| Chains.BeforeAllConnects | cmd/netRelaServer/main.go:183-189 | looking at each pair i < j once connects the same elements as the whole symmetric relation |
| AffinityReply.JoinIfAffine | cmd/netRelaServer/main.go:183-189 | one round of the double loop: the classes are the components of the affine pairs seen so far, this one included |
| AffinityReply.GroupByRepresentative | cmd/netRelaServer/main.go:120-127 | the map has one key per class with its members in ascending order; looking them up changes no representative |
| AffinityReply.BuildReply | cmd/netRelaServer/main.go:134-164 | the reply is that of some complete enumeration of the classes without repetition, in any order |
| AffinityReply.GetPodsAffinity | cmd/netRelaServer/main.go:119-165 | the whole function: some iteration order explains the outcome, and representatives are unchanged |
| AffinityReply.ReplyIsCorrect | cmd/netRelaServer/main.go:119-165 | for distinct Uids and every order: groups are exactly the components of size two or more, in request order, pairwise disjoint, with the requested pods as payload and numbers going round the nodes |
| AffinityReply.PayloadsFaithful | cmd/netRelaServer/main.go:128-132 | every payload is the pod at its position if and only if equal Uids mean equal pods |
| AffinityReply.GroupsBalanced | cmd/netRelaServer/main.go:135-142 | in a correct reply the numbers of groups on two NUMA nodes differ by at most one |
| AffinityReply.DividesByZeroExactly | cmd/netRelaServer/main.go:135-142 | the reply divides by zero exactly when no node is known and some pod has a partner |
| NetRelaServer.GenerateNetRelaGraph | cmd/netRelaServer/main.go:192-207 | the graph has exactly the reported pairs as arcs, in one direction, and every pid as a key |
| NetRelaServer.HasPodAffinity | cmd/netRelaServer/main.go:169-181 | true exactly when a reported pair has one pid in each pod, in either order |
| NetRelaServer.LookupDecidesSharing | cmd/netRelaServer/main.go:169-207 | the two-way lookup in the one-way graph is equivalent to sharing a reported pair |
| NetRelaServer.AffineExactly | cmd/netRelaServer/main.go:169-181 | two pods are linked exactly when a reported pair has one pid in each, in either order |
| NetRelaServer.FirstRequestDividesByZero | cmd/netRelaServer/main.go:135-142 | two pods that share a pair, before any topology request: a division by zero in whatever order the map is iterated |
| NetRelaServer.Server.InitNetRelationship | cmd/netRelaServer/main.go:167-190 | afterwards representatives agree exactly on pods linked by a chain of pods whose neighbours share a pair |
| NetRelaServer.Server.GetPodAffinity | cmd/netRelaServer/main.go:98-117 | one request: when it divides by zero, and that otherwise its groups are correct for the reported pairs |
| NetRelaServer.Server.GetNumaNodeInfo | cmd/netRelaServer/main.go:313-342 | the response has one message per node in order, with its number, its memory node's decimal and exactly its CPUs' decimals, and the server remembers how many |
| NumafastServer.SomeGroupIn | cmd/grpcServer/main.go:175-210 | true exactly when a real group id of the first list is in the second |
| NumafastServer.HasPodAffinity | cmd/grpcServer/main.go:175-210 | true exactly when a real group of one pod is a group or thread of the other |
| NumafastServer.AffineExactly | cmd/grpcServer/main.go:175-210 | two pods are linked exactly when a group of one, not -1, is a group or a thread of the other |
| NumafastServer.CalculateGid | cmd/grpcServer/main.go:163-173 | group ids are the kernel's answers for the threads, in thread order |
| NumafastServer.Server.GroupPods | cmd/grpcServer/main.go:258-266 | afterwards representatives agree exactly on pods linked by a chain of pods whose groups meet |
| NumafastServer.Server.GetPodAffinity | cmd/grpcServer/main.go:233-314 | as for the other server, for this adjacency |
| RoundRobin.Advance | cmd/netRelaServer/main.go:142 | adding one modulo n takes the counter after t steps to the counter after t + 1 |
| RoundRobin.CycleIsModulo | pkg/agent/agent.go:540-573 | that counter is the number of steps modulo n, and it has come round steps / n times |
| RoundRobin.HitsExactly | cmd/netRelaServer/main.go:142 | a counter taken modulo n hits residue a exactly ticks/n times, once more for the first ticks mod n residues |
| NumaTopology.GetNumaInfo | pkg/podAffinityServer/netrela.cpp:84-109 | each node's block starts with exactly its CPUs in ascending order; it must not have more than the 64 allocated |
| NumaTopology.CpusOfNode | pkg/podAffinityServer/netrela.cpp:94-105 | the inner loop for one node, written into a fixed block |
| NumaTopology.NodesSplitTheCpus | pkg/podAffinityServer/netrela.cpp:93-106 | a CPU is in a node's list exactly when it sits there, lists ascend, lists of different nodes are disjoint |
| NumaTopology.ConvertCpuSet | cmd/netRelaServer/main.go:344-352 | the numbers joined by commas: splitting gives as many pieces as numbers, in order, each the one decimal text of its number; no number gives no text |
| NumaTopology.MessageDescribesNode | cmd/netRelaServer/main.go:317-352 | the message of node i has number i, the decimal of i as memory node, and lists exactly its CPUs |
| NumaTopology.TextOfTwoCpus | cmd/netRelaServer/main.go:344-352 | CPUs 9 and 10 give the text 9,10 |
| NumaTopology.NumaNodeResponse | cmd/netRelaServer/main.go:317-336 | node i of the response has number i, its memory node and its CPUs' text |
| NumaTopology.CpuNamesOfMessage | cmd/netRelaServer/main.go:344-352 | splitting a node's cpuset gives back its CPUs' decimals; an empty node reads as one empty name |
| NumaTopology.CpuNamesOverlap | pkg/agent/agent.go:347-350 | two nodes' lists share a name exactly when both nodes are empty |
| NumaTopology.AllCpusDistinctExactly | pkg/agent/agent.go:347-350 | the flat list repeats no name exactly when at most one node is empty |
| NumaTopology.TwoEmptyNodesRepeatAName | pkg/agent/agent.go:347-350 | two nodes without CPUs give the flat list with the empty name twice |
| NumaTopology.NodesWithCpusHaveRealNames | cmd/netRelaServer/main.go:344-352 | a node's names as read back are distinct, and all non-empty exactly when the node has a CPU |
| Text.SplitJoin | pkg/agent/agent.go:539-566 | splitting undoes joining of separator-free pieces, except that no piece comes back as one empty piece |
| Text.JoinSplit | pkg/agent/agent.go:349 | joining undoes splitting |
| Text.SplitAvoids | pkg/agent/agent.go:539 | no piece of a split text contains the separator |
| Text.SplitPrefix | pkg/agent/agent.go:539 | the piece before the first separator comes first |
| Text.AtoiItoa | pkg/resctrl/resctrl_group.go:129 | Atoi reads back what was printed exactly when the number is from -2^63 to 2^63 - 1 |
| Text.ItoaIsCanonical | cmd/netRelaServer/main.go:348 | the printed text has no superfluous zero or sign, and is the only such text that denotes the number |
| Text.DigitsValueAppend | pkg/resctrl/resctrl_group.go:129 | a text of digits denotes its value in base ten, the last digit counting one |
| Text.IntegerReads | pkg/resctrl/resctrl_group.go:129 | exactly digits with at most one sign denote an integer, and a minus sign negates it |
| Cluster.FindContainerId | pkg/agent/agent.go:375-381 | the id of the status k with the container's name that no earlier one has, or the empty string when none has it |
| Cluster.PodJobsInOrder | pkg/agent/agent.go:375-398 | a pod's m-th container is placed with its name, its request and the id of its first status |
| Cluster.JobsInOrder | pkg/agent/agent.go:542-548 | every listed pod of the name and namespace adds its containers, in list order, also a second such pod |
| CustomResource.Node.MergePod | pkg/agent/agent.go:491-506 | the first entry of the name takes the number, or a new entry is appended |
| CustomResource.Int32Exactly | pkg/agent/agent.go:496 | the number becomes the 32-bit one congruent to it modulo 2^32, itself when it fits |
| CustomResource.Node.MergeGroups | pkg/agent/agent.go:489-508 | the nested loops apply all of the reply's assignments in order |
| CustomResource.AssignmentsInOrder | pkg/agent/agent.go:489-490 | the assignments of a reply follow its groups in order |
| CustomResource.GroupAssignmentsInOrder | pkg/agent/agent.go:490-506 | and in a group its pods, each with its name, its namespace and the group's number |
| CustomResource.LatestNumberCounts | pkg/agent/agent.go:493-499 | the last assignment of a name gives its number, and a name without one keeps its own |
| CustomResource.EarliestNamespaceCounts | pkg/agent/agent.go:501-505 | the first assignment of a name gives a new entry its namespace |
| CustomResource.MergeCharacter | pkg/agent/agent.go:489-508 | read off the reply alone, for any entries: old ones keep place and all but the number, which only the first of a name changes; new names are appended once with their number; distinct names stay distinct |
| CustomResource.Compact | pkg/agent/agent.go:900-908 | in-place compaction leaves the kept entries in front, in order |
| CustomResource.Node.DeletePod | pkg/agent/agent.go:865-908 | the entries become those that do not name the pod |
| CustomResource.RemainingCharacter | pkg/agent/agent.go:900-908 | the result is the order-preserving filter: exactly the positions that differ in name or namespace, ascending |
| NumafastAllocator.TakeCpus | pkg/agent/agent.go:550-555 | q CPUs are the wheel's next q slots, and the cursor is the number of slots handed out modulo the CPU count, before and after |
| NumafastAllocator.PlaceGuaranteed | pkg/agent/agent.go:538-573 | one Guaranteed entry: its containers' slots follow each other from the number of slots handed out before |
| NumafastAllocator.PlaceWholeNode | pkg/agent/agent.go:514-537 | any other entry: every container gets the whole node; fails exactly on a container with a number out of range |
| NumafastAllocator.UpdateContainers | pkg/agent/agent.go:510-574 | all entries are placed; it fails exactly when some entry's number is out of range for its branch |
| NumafastAllocator.PlacedAllAt | pkg/agent/agent.go:510-574 | entry i depends only on itself and on the slots taken by the entries before it |
| NumafastAllocator.LastPodDecidesQos | pkg/agent/agent.go:471-474 | the quality class looked up by name is that of the last listed pod of the name |
| NumafastAllocator.HandedOutAddsUp | pkg/agent/agent.go:538-573 | each Guaranteed entry on a node takes as many slots there as its pod's containers ask for, other entries take none |
| NumafastAllocator.GrantsTurnTheWheel | pkg/agent/agent.go:538-573 | read back from the texts, all CPUs granted on a node are an initial stretch of its CPUs repeated forever |
| NumafastAllocator.GrantedAt | pkg/agent/agent.go:538-573 | the t-th CPU granted on a node of n CPUs is its CPU t mod n, and as many are granted as were asked for |
| NumafastAllocator.ContainerCpuAt | pkg/agent/agent.go:549-569 | a container's k-th CPU is that of the k-th slot after all slots taken on its node before it |
| NumafastAllocator.GrantsAreBalanced | pkg/agent/agent.go:538-573 | two CPUs of a node are granted equally often, up to one |
| NumafastAllocator.GrantsExclusiveExactly | pkg/agent/agent.go:538-573 | no CPU of a node is granted twice, within or across containers, exactly when the requests there sum to at most its CPU count |
| NumafastAllocator.ContainerGetsWhatItAsked | pkg/agent/agent.go:549-569 | for any node text without a repeated name: a container gets as many CPUs as requested unless it asked for one and its slot's name is empty, none twice exactly when the node has that many |
| NumafastAllocator.ContainersAreLocal | pkg/agent/agent.go:512-573 | in both branches, whatever the node's text, the memory node is the entry's and the CPUs are that node's |
| NetAffinityRun.RunKeepsWellFormed | pkg/agent/agent.go:489-574 | along every run of reconciliations and deletions names stay distinct, numbers stay node indices, nothing stops half-way |
| NetAffinityRun.StoppedWritesNothing | pkg/agent/agent.go:510-574 | a reconciliation that stops half-way leaves the stored entries alone |
| NetAffinityRun.RunRefinesTable | pkg/agent/agent.go:489-508 | every run on the entry list gives what a run on a table from names to number and namespace gives |
| NetAffinityRun.AssignRefines | pkg/agent/agent.go:491-506 | searching the list and updating or appending refines a table update that keeps the first namespace |
| NetAffinityRun.RemainingRefines | pkg/agent/agent.go:900-908 | compaction refines removing the name from the table when the namespace matches |
| NetAffinityRun.PlacedKeepsTheRest | pkg/agent/agent.go:510-574 | placing changes nothing but containers |
| Reconciliation.AssignedPodIsPlacedExactly | pkg/agent/agent.go:489-508 | a pod the reply numbers n has an entry of its own name and namespace on n exactly when the first entry of its name, if any, is its own, or another own entry is there already; and one at all exactly when it had one or none had its name |
| Reconciliation.MergedPodCarriesGroupNumber | pkg/agent/agent.go:489-508 | after merging a correct reply this holds of every grouped pod with its group's number |
| Reconciliation.DistinctNamesDecide | pkg/agent/agent.go:489-508 | where names are distinct, a grouped pod is on its group's node, and has an entry at all, exactly when every entry of its name has its namespace |
| Reconciliation.LinkedPodsMeet | pkg/agent/agent.go:489-574 | two linked pods are sent to one common node, each under that exact condition |
| Reconciliation.JobsOfListedPod | pkg/agent/agent.go:516-519 | among pods of distinct names, an entry of a pod's name and namespace is given that pod's containers, by its quality class |
| Reconciliation.RequestCarriesIds | pkg/agent/agent.go:476 | the request lists the container ids of each pod |
| Reconciliation.EntryServes | pkg/agent/agent.go:510-574 | such an entry holds all of the pod's containers, each with the id of its first status of that name and as many CPUs of the node as it asks for, or the whole node |
| NetAffinityRun.ServedInFullExactly | pkg/agent/agent.go:549-569 | on the server's topology a Guaranteed container gets what it asked for unless it asked an empty node for a single CPU |
| NetAffinityRun.WholeNodeSharedExactly | pkg/agent/agent.go:514-537 | the CPUs of a pod that gets a whole node meet another entry's exactly when that entry asks for any CPU of the same non-empty node |
| NetAffinityRun.WholeNodeAloneExactly | pkg/agent/agent.go:514-537 | such a pod has its node to itself exactly when the node is empty or no other entry asks for any of it |
| NetAffinityRun.TwoPodsShareANode | pkg/agent/agent.go:514-537 | two pods that are not Guaranteed on one node with a CPU share it |
| StartUp.Resource.CreateConfigCrd | pkg/agent/config-interface.go:72-108 | the resource is created only where there is none |
| StartUp.Resource.SetupConfigCrd | pkg/agent/agent.go:782-863 | a resource that existed stays as it is and start-up fails; one just created gets this node's entry reset to the topology, without pods, or appended, unless an answer is missing: then it stays as found |
| StartUp.SetUpTouchesOneEntry | pkg/agent/agent.go:804-851 | only the last entry of the node is reset, or a new one appended; all others stay as found |
| StartUp.SetUpGives | pkg/agent/agent.go:804-851 | reconciliations then find a fresh entry, or the first of two as it was found |
| StartUp.ReadyAfterStartUpExactly | pkg/agent/agent.go:782-863 | exactly when the entry mirrors the topology and is well-formed after start-up |
| StartUp.PolicyChangeHidesPod | pkg/agent/agent.go:782-784 | load balancing's entry of a pod a of prod survives a change of policy, and the first reconciliation gives the linked pod a of default no entry |
| NetAffinityRun.SetupMirrors | pkg/agent/agent.go:817-826 | the copy mirrors the topology the server reports |
| Reconciliation.ReconciliationBringsTogether | pkg/agent/agent.go:489-574 | a correct reply, merged into any numbered entries and placed: every listed pod's own entries hold its containers, other entries none, all are local, and linked pods meet under the exact condition |
| Reconciliation.LinkedPodsTogether | pkg/agent/agent.go:489-574 | linked pods whose names find their own entries or none run on one node with all their containers |
| Reconciliation.RunKeepsNamespace | pkg/agent/agent.go:466-508 | along every run of replies about one namespace the entries stay those of that namespace |
| Reconciliation.FreshRunsBringTogether | pkg/agent/agent.go:466-574 | so from an entry without pods, after any such run, a reconciliation brings all linked pods together |
| Reconciliation.HiddenPodStaysHidden | pkg/agent/agent.go:494-508 | a linked pod whose name has entries, none of its own namespace, has none after the reconciliation |
| Reconciliation.OtherNamespaceHidesPod | pkg/agent/agent.go:494-508 | the instance with one entry of a pod a of prod and linked pods a and b of default |
| Reconciliation.PairReply | cmd/netRelaServer/main.go:119-165 | some reply is correct for those two pods |
| NumafastUpdate.Tick | pkg/agent/agent.go:430-574 | one reconciliation with the server, on any entry: a step of the run model on a correct reply, with when it stops; where the entry mirrors the topology and has valid numbers it succeeds, serves every listed pod's entry, and brings linked pods together under the exact condition |
| LoadBalancer.WhitelistKeys | pkg/agent/agent.go:287-293 | exactly the namespace-name keys of the listed pods |
| LoadBalancer.ManagedCharacter | pkg/agent/agent.go:354-359 | the managed pods are exactly those with a whitelisted key, each once and in list order |
| LoadBalancer.SameKeySamePod | pkg/agent/agent.go:290 | equal keys come from the same pod exactly when the namespaces are equally long |
| LoadBalancer.ManagedIsListedExactly | pkg/agent/agent.go:287-359 | a managed pod is a listed one exactly when some listed pod has its key and a namespace of the same length |
| LoadBalancer.ListedIsManaged | pkg/agent/agent.go:287-359 | every listed pod of the worker node is managed |
| LoadBalancer.KeysDetermineExactly | pkg/agent/agent.go:290 | over a set of namespaces keys determine pods, whatever their names, exactly when no namespace followed by a dash starts another |
| LoadBalancer.ManagedMeansListed | pkg/agent/agent.go:287-359 | over such namespaces the managed pods are exactly the listed ones |
| LoadBalancer.UnlistedPodIsManaged | pkg/agent/agent.go:287-359 | listing pod b-c of namespace a manages the unlisted pod c of namespace a-b |
| LoadBalancer.NodeArithmetic | pkg/agent/agent.go:363-393 | the closed forms for node number, first and last index agree with the code's divisions and products |
| LoadBalancer.SlotIndexArithmetic | pkg/agent/agent.go:363-396 | with n = c / k, slot s is index c + s up to the end of node n, then climbs from index n to that end, then goes round node n |
| LoadBalancer.OverflowStep | pkg/agent/agent.go:389-395 | one step of the overflow cursor is the next of these indices |
| LoadBalancer.PodCpusAt | pkg/agent/agent.go:384-396 | a container's CPUs are those of the list at its slots' indices |
| LoadBalancer.CountersAddUp | pkg/agent/agent.go:352-414 | both counters start at 0; only pods that are not Guaranteed are counted for the nodes, and they leave the main cursor |
| LoadBalancer.TakeOne | pkg/agent/agent.go:384-396 | one slot from the main or the overflow cursor is the closed-form index; fails exactly when the main cursor is off the list |
| LoadBalancer.PlacePod | pkg/agent/agent.go:365-405 | one Guaranteed pod: containers on consecutive slots of the pod with the start's node as memory node, cursor moved, and when it runs off the list |
| LoadBalancer.UpdateByLoadBalancing | pkg/agent/agent.go:343-415 | all whitelisted pods in order; stops exactly with no node or when the final cursor exceeds the list |
| LoadBalancer.CursorStopsAtTheBoundary | pkg/agent/agent.go:386-388 | a pod moves the cursor from c to min(c + q, (c/k + 1)k) |
| LoadBalancer.CursorBound | pkg/agent/agent.go:352-404 | after m Guaranteed pods the cursor is at most m*k, whatever they request |
| LoadBalancer.FewPodsStayInRange | pkg/agent/agent.go:352-404 | with at most as many Guaranteed pods as nodes the update never runs off the list |
| LoadBalancer.SlotBounds | pkg/agent/agent.go:386-395 | no slot is in a higher node or below the node's number; all main slots and all slots after the first wrap are in the node |
| LoadBalancer.ConfinedExactly | pkg/agent/agent.go:362-395 | a pod's slots all lie in its node exactly when it fits, or the node is the first, or k is 1 |
| LoadBalancer.MainIndicesExclusive | pkg/agent/agent.go:386-388 | no index goes to two pods through the main cursor |
| LoadBalancer.FittingPodsShareNothing | pkg/agent/agent.go:365-405 | two Guaranteed pods that fit share no CPU name |
| LoadBalancer.FlatListAt | pkg/agent/agent.go:347-352 | with equal nodes, index p is CPU p mod k of node p / k |
| LoadBalancer.PodTextsReadBack | pkg/agent/agent.go:373-404 | the cpuset texts of a pod's containers, read in order, name its slots 0, 1, 2, ... exactly when none asked for a single CPU and got an empty name |
| LoadBalancer.EntryServesItsPod | pkg/agent/agent.go:347-405 | on the agent's own CPU list, whatever the nodes' texts: entry i is that of the i-th whitelisted pod, and each container has its name, the id of its first status, the decimal of start / k as memory node, and as many CPUs as it asked for, on consecutive slots, unless it asked for one with an empty name |
| LoadBalancer.EntryIsLocalExactly | pkg/agent/agent.go:362-405 | entry i keeps every container on its NUMA node under the same exact condition |
| LoadBalancer.OthersBalanced | pkg/agent/agent.go:406-414 | other pods are spread over the nodes evenly, up to one, however Guaranteed pods interleave |
| LoadBalancingRun.IndicesExclusiveExactly | pkg/agent/agent.go:384-396 | no index of the flat list is handed out twice, within a pod or across pods, exactly when every Guaranteed pod fits what is left of its node |
| LoadBalancingRun.MisfitRepeats | pkg/agent/agent.go:384-396 | a pod that does not fit gets an index that it or a pod before it already has |
| LoadBalancingRun.NamesExclusiveExactly | pkg/agent/agent.go:347-396 | the same for CPU names, when the list repeats none |
| LoadBalancingRun.WrittenExclusiveExactly | pkg/agent/agent.go:352-405 | the written cpusets repeat no CPU, within a container or across them, exactly when every Guaranteed pod fits |
| LoadBalancingRun.IndicesCover | pkg/agent/agent.go:384-396 | fitting or not, the Guaranteed pods' indices are exactly those below the main cursor |
| LoadBalancingRun.NodeTakenExactly | pkg/agent/agent.go:384-411 | a node holds a CPU of a Guaranteed pod exactly when its first CPU is below the cursor |
| LoadBalancingRun.OthersApartExactly | pkg/agent/agent.go:406-414 | no two other pods are sent to one node exactly when there are no more of them than nodes |
| LoadBalancingRun.FirstOtherPodMeetsGuaranteed | pkg/agent/agent.go:384-411 | after one Guaranteed pod asking for a CPU, the first other pod is sent to a node with a CPU of that pod |
| LoadBalancingRun.EqualSizes | pkg/agent/agent.go:352 | with equally many CPUs on each node the agent's quotient is that number |
| LoadBalancingRun.EvenMachine | cmd/netRelaServer/main.go:317-336 | the server's messages for a machine with equally many CPUs per node satisfy what the locality and exclusiveness results require |
| LoadBalancingRun.Rebalance | pkg/agent/agent.go:279-415 | one update from the CPU table and the whitelist on: when it stops; on any machine every entry's pod, number, containers with their ids and memory node, and the even spread of the others; on an even one also exact locality, exact exclusiveness, and which of the others meet a Guaranteed pod or each other |
| LoadBalancingRun.SecondNodeOverflowsIntoFirst | pkg/agent/agent.go:362-395 | on two nodes of k CPUs, pods asking for k and k + 1 both get the second CPU of node 0, though the second pod is on node 1 |
| LoadBalancingRun.BothGetCpu1 | pkg/agent/agent.go:362-395 | the instance with two nodes of four CPUs, in the server's own texts |
| LoadBalancingRun.NumberedPastTheNodes | pkg/agent/agent.go:366-368 | with all CPUs taken, a Guaranteed pod asking for none gets a node number past the nodes |
| Schemata.PrintSchemata | pkg/resctrl/resctrl_group.go:61-70 | the loops build the two-row text |
| Schemata.GetL3IdFromFile | pkg/resctrl/resctrl_group.go:89-137 | the scan and parse loops compute the parse function on any text |
| Schemata.FindL3LineExactly | pkg/resctrl/resctrl_group.go:97-111 | the line found is the first with the prefix, and none after a line the scanner refuses |
| Schemata.ParseReadsLine | pkg/resctrl/resctrl_group.go:112-136 | the ids are those of the items after that line's prefix |
| Schemata.ItemIdsExactly | pkg/resctrl/resctrl_group.go:117-134 | items are read in order and those without an id are skipped |
| Schemata.ItemIdExactly | pkg/resctrl/resctrl_group.go:121-132 | an item has an id exactly when it has an equals sign after an integer that fits int |
| Schemata.NeverInvalid | pkg/resctrl/resctrl_group.go:112-115 | the format error cannot occur |
| Schemata.RoundTrip | pkg/resctrl/resctrl_group.go:61-136 | parsing what was printed gives the same ids in order exactly when the first row fits the scanner |
| Schemata.ManyIdsAreUnreadable | pkg/resctrl/resctrl_group.go:61-111 | with 16383 ids or more, whatever they are, the printed file is never read back |
| Schemata.RowsOfText | pkg/resctrl/resctrl_group.go:61-70 | the text is two rows whose items decode to (id, L3 priority) and (position, bandwidth priority) |
| Schemata.TextOfTwoIds | pkg/resctrl/resctrl_group.go:61-70 | the literal text of ids 0 and 1 with priorities 3 and 5 |
| Schemata.Resctrl.GetL3Id | pkg/resctrl/resctrl_group.go:78-87 | a non-empty memo is returned as it is, an empty one is read from the file |
| Schemata.Resctrl.SetGroupQos | pkg/resctrl/resctrl_group.go:50-76 | the whole new memo and file state of one call, and when it fails |
| Schemata.OneCall | pkg/resctrl/resctrl_group.go:50-87 | from any state a call succeeds exactly when ids are known or the file found has them; then the group's file is the text of those ids with the call's priorities, otherwise it is as found; no other file changes |
| Schemata.LearntIdsStay | pkg/resctrl/resctrl_group.go:78-87 | along any calls, also from an empty memo, ids once known never change |
| Schemata.FilesHoldLearntIds | pkg/resctrl/resctrl_group.go:50-87 | and after any calls a directory holds those ids with the priorities of its last call, the one that learnt them included |
| Schemata.IdsWereRead | pkg/resctrl/resctrl_group.go:78-136 | ids not known at the start are all that some call read from the file it found |
| Schemata.MemoIsStable | pkg/resctrl/resctrl_group.go:50-87 | over any calls known ids never change, written files hold them with their latest priorities, others are untouched |
| Schemata.RestartLearnsSameIds | pkg/resctrl/resctrl_group.go:78-136 | a process starting afresh learns the same ids from a file so written exactly when its first row fits the scanner |
| ObjectWatch.RunIsGood | pkg/agent/watch/object.go:72-167 | in every reachable state at most one session is live and it is the one held, failing means none, and what reaches the reader lacks at most the last event of an ended session |
| ObjectWatch.Arrival | pkg/agent/watch/object.go:87-103 | an event of the open session is received; it is passed on exactly when the buffer has room, and the session is kept exactly when it is passed on and no error, otherwise the watch is failing |
| ObjectWatch.Expiry | pkg/agent/watch/object.go:87-92 | an expired session is replaced by a new, empty one or by none, and the buffer stays |
| ObjectWatch.Reading | pkg/agent/watch/object.go:64-66 | the reader moves the oldest buffered event to what it took |
| ObjectWatch.ReceivedIsArrived | pkg/agent/watch/object.go:78-110 | after any run the sessions together have received exactly the events that arrived while one was open, in order |
| ObjectWatch.NothingIsLost | pkg/agent/watch/object.go:78-110 | while every input is harmless, the events taken and buffered are all that arrived, in order |
| ObjectWatch.FirstHarmIsFinal | pkg/agent/watch/object.go:78-167 | otherwise they are those before the first harmful input, and its own event exactly when there was room for it; the watch stays failing exactly when that input was an event |
| ObjectWatch.ReaderGetsTheEvent | pkg/agent/watch/object.go:93-98 | one modified event and a reader: the reader gets it |
| ObjectWatch.StaysOpenExactly | pkg/agent/watch/object.go:87-108 | a session survives a step exactly when it is no error, finds room, and any re-creation works |
| ObjectWatch.StaysOpenAlongRuns | pkg/agent/watch/object.go:78-110 | after any run the watch has a session exactly when every input so far was harmless where it came |
| ObjectWatch.TimerNeverArmed | pkg/agent/watch/object.go:148-153 | the reopen timer is never armed |
| ObjectWatch.NeverReopens | pkg/agent/watch/object.go:105-153 | a watch that lost its session receives and delivers nothing ever after |
| ObjectWatch.OneErrorIsFinal | pkg/agent/watch/object.go:93-103 | one error event at the start, and no later event is ever received |
| ObjectWatch.Watch.Open | pkg/agent/watch/object.go:115-129 | stops the old session first; on success a new one is live and the watch runs, otherwise none is |
| ObjectWatch.Watch.Handle | pkg/agent/watch/object.go:93-103 | one event: error handling, then the non-blocking send or the drop |
| ObjectWatch.Watch.Step | pkg/agent/watch/object.go:80-108 | one round of the loop is one step of the transition function and keeps the invariant |
| ObjectWatch.Loop | pkg/agent/watch/object.go:78-110 | any number of rounds is a run |
| ConfigWatcher.Watcher.SetNodeConfig | pkg/agent/watcher.go:226-232 | records the node configuration and applies it, or the group configuration where it is deleted |
| ConfigWatcher.Watcher.SetGroupConfig | pkg/agent/watcher.go:235-244 | records the group configuration, and applies it exactly when there is no node configuration |
| ConfigWatcher.Watcher.GroupDeleted | pkg/agent/watcher.go:198-212 | a deleted group configuration counts as setting the default one, or none |
| ConfigWatcher.LatestCounts | pkg/agent/watcher.go:226-244 | of the node's and of the group's configuration the latest update counts, deletions included |
| ConfigWatcher.UpdateApplies | pkg/agent/watcher.go:226-260 | a node update always applies, itself or the group configuration; a group update applies itself exactly when the node has none |
| ConfigWatcher.LastAppliedIsEffective | pkg/agent/watcher.go:226-260 | after any updates the last configuration applied is the node's if there is one, else the group's |
| ConfigWatcher.ConditionalRefinesAlways | pkg/agent/watcher.go:226-260 | the configurations applied are those of applying after every update, repetitions aside |
| PodCache.PodInfo.DeepCopy | pkg/typedef/podinfo.go:32-47 | an object with the same name, uid, namespace and labels, fresh down to its label map |
| PodCache.Cache.DelPod | pkg/typedef/podcache.go:40-47 | removes the key, if any |
| PodCache.Cache.UpdatePod | pkg/typedef/podcache.go:50-57 | maps the uid to the object unless there is no object or no uid |
| PodCache.Cache.ListPod | pkg/typedef/podcache.go:60-68 | the same keys, each with a copy that agrees in every field and label; nothing shared with the cache or between copies |
| PodCache.RunPodSandbox | pkg/resmgr/nri.go:102-118 | a start with an rcgroup label and a uid caches a new object with the sandbox's fields and its label map, any other changes nothing; one step of the cache's value |
| PodCache.StopPodSandbox | pkg/resmgr/nri.go:120-125 | exactly that uid leaves the cache; one step of the cache's value |
| PodCache.CacheHoldsLatestStarts | pkg/resmgr/nri.go:102-125 | after any events the cache has exactly the uids with a labelled start since their last stop, each with the latest pod |
| PodCache.InterleavingRefinesAtomic | pkg/typedef/podcache.go:32-57 | every interleaving of checks, locked deletes and updates ends as some atomic history does |
| PodCache.EveryDeleteTakesEffectOnce | pkg/typedef/podcache.go:40-47 | that history has each thread's deletes once and in order, except one still in progress |
| PodCache.EveryUpdateTakesEffectOnce | pkg/typedef/podcache.go:50-57 | and it has every update once and in order |
| PodCache.AtomicHoldsLatestWrites | pkg/typedef/podcache.go:40-57 | an atomic history ends with exactly the uids updated since their last delete, as last updated |
| PodCache.DeleteRemovesWhatWasChecked | pkg/typedef/podcache.go:40-47 | the check changes nothing, and the locked part removes the checked uid, also if it was updated in between |
| PodCache.UpdateInBetweenIsLost | pkg/typedef/podcache.go:40-57 | a pod updated between the check and the locked part of its delete is gone |
| SlidingWindow.SlideSum | test/wrk/main.go:43-46 | adding a value and subtracting the replaced one keeps the sum of the last n values |
| SlidingWindow.SumAddsUp | test/wrk/main.go:43-46 | no values sum to zero, and each further value adds itself |
| SlidingWindow.Queue.constructor | test/wrk/main.go:33-41 | an empty queue of that size, all zero |
| SlidingWindow.HoldsStep | test/wrk/main.go:43-47 | overwriting the head replaces exactly the value that leaves the window |
| SlidingWindow.Queue.EnQueue | test/wrk/main.go:43-51 | the history grows by the value and all fields stay consistent with it |
| SlidingWindow.FieldsDescribeWindow | test/wrk/main.go:25-51 | size is min(n, m), the sum is that of the last values, and the ring holds them in order ending before the head |

## Left out

- Kubernetes, gRPC, NRI, D-Bus, TOML and YAML: pod lists, node lists, reported pairs and the existing entry are inputs.
- Running `crictl` and `ps`, kernel ioctls, the oeaware SDK and the cgo pointer casts: threads, group ids and pairs are inputs.
- Concurrent requests on the servers' global parent array: one request at a time; capacity 1024 is a parameter above the pod count.
- Stopping the watch: the loop's own stop call waits for the lock its caller holds, so nothing is claimed about termination.
- A node that is not yet in the resource under load balancing (a copy is appended and the local value edited afterwards): the node exists.
- Fractional CPU requests are not modelled: requests are natural numbers.
- File errors, real kernel reformatting of schemata files, directory walking and writing pids.
- Prometheus metrics, runtime reconfiguration, generated clients and deployment files: plumbing.
- NumafastAllocator.UpdateContainers: says nothing about the entries when it stops half-way, because the process then dies before writing them back.
- LoadBalancer.UpdateByLoadBalancing: says nothing about the entries when it stops half-way, for the same reason.
- LoadBalancer.EntryIsLocalExactly: assumes nodes with equally many CPUs and no repeated or empty name; the cursor results need none of this.
- NumafastUpdate.Tick: requires the listed pods' names to differ, as they do in the one namespace the agent lists.
- StartUp.Resource.SetupConfigCrd: what the new resource holds when it is read back is an input; later conflicting writes by other agents are a failed update.
- LoadBalancingRun.Rebalance: on a machine whose nodes have different numbers of CPUs it says when the update stops and what it writes for each pod, slot by slot, but not in which nodes those slots lie.
- NumaTopology.GetNumaInfo: requires at most 64 CPUs per node, since the code writes past its block otherwise.
- SlidingWindow.Queue.EnQueue: exact arithmetic, so floating-point rounding of the running sum is not captured.
- PodCache.RunPodSandbox: the label map enters the cache by reference; changes made to it later by its owner are not events of the model.
