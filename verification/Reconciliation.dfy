/** One reconciliation under the network-affinity policy, from the reported pairs to the pods' containers. */
module Reconciliation {
  import opened Text
  import opened Chains
  import opened Cluster
  import opened AffinityReply
  import opened CustomResource
  import opened NumaTopology
  import opened NumafastAllocator
  import opened NetAffinityRun
  import opened RoundRobin

  // ---- The request and the reply ----

  /** The request the agent sends for its listed pods. */
  function RequestPods(pods: seq<PodItem>): (r: seq<Pod>)
    ensures |r| == |pods|
    ensures forall i :: 0 <= i < |pods| ==>
      r[i].uid == pods[i].uid && r[i].podName == pods[i].name && r[i].podNamespace == pods[i].namespace
      && |r[i].containerIds| == |pods[i].statuses|
  {
    seq(|pods|, i requires 0 <= i < |pods| =>
      Pod(pods[i].uid, pods[i].name, pods[i].namespace,
          seq(|pods[i].statuses|, c requires 0 <= c < |pods[i].statuses| => pods[i].statuses[c].containerId)))
  }

  lemma {:induction false} RequestCarriesIds(pods: seq<PodItem>, i: nat, c: nat)
    requires i < |pods| && c < |pods[i].statuses|
    ensures RequestPods(pods)[i].containerIds[c] == pods[i].statuses[c].containerId
  {
  }

  /** The agent lists the pods of one namespace, so their names differ, too. */
  ghost predicate DistinctPods(pods: seq<PodItem>) {
    forall i, j :: 0 <= i < j < |pods| ==> pods[i].uid != pods[j].uid && pods[i].name != pods[j].name
  }

  ghost predicate DistinctPodNames(request: seq<Pod>) {
    forall i, j :: 0 <= i < j < |request| ==> request[i].podName != request[j].podName
  }

  lemma {:induction false} NumbersInRange(groups: seq<AffinityGroup>, pods: seq<Pod>, e: Edges, numas: nat)
    requires numas > 0 && CorrectReply(groups, pods, e, numas)
    ensures forall g :: 0 <= g < |groups| ==> 0 <= groups[g].numaNumber < numas
  {
  }

  lemma {:induction false} SameNameSamePod(request: seq<Pod>, i: nat, p: Pod)
    requires DistinctPodNames(request) && i < |request| && p in request && p.podName == request[i].podName
    ensures p == request[i]
  {
  }

  /** A requested pod is in no group but its own. */
  lemma {:induction false} OneGroupPerPod(groups: seq<AffinityGroup>, request: seq<Pod>, e: Edges, numas: nat,
                                          p: Pod, g: nat, h: nat)
    requires numas > 0 && CorrectReply(groups, request, e, numas)
    requires g < |groups| && h < |groups| && p in groups[g].pods && p in groups[h].pods
    ensures g == h && groups[g].numaNumber == Cycle(g, numas)
  {
  }

  lemma {:induction false} GroupedPodIsRequested(group: AffinityGroup, request: seq<Pod>, q: nat)
    requires InRequestOrder(group.pods, request) && q < |group.pods|
    ensures group.pods[q] in request
  {
    var m :| AscendingBelow(m, |request|) && group.pods == Select(request, m);
    assert group.pods[q] == request[m[q]];
  }

  /** Whatever assignment names a grouped pod carries its group's number and its namespace. */
  lemma {:induction false} AssignmentsAgree(groups: seq<AffinityGroup>, request: seq<Pod>, e: Edges, numas: nat,
                                            g: nat, i: nat, a: Assignment)
    requires DistinctPodNames(request) && 0 < numas <= 0x8000_0000
    requires CorrectReply(groups, request, e, numas)
    requires g < |groups| && i < |request| && request[i] in groups[g].pods
    requires a in Assignments(groups) && a.podName == request[i].podName
    ensures a.numaNum == Cycle(g, numas) && a.namespace == request[i].podNamespace
  {
    var h, q := AssignmentFrom(groups, a);
    GroupedPodIsRequested(groups[h], request, q);
    SameNameSamePod(request, i, groups[h].pods[q]);
    assert request[i] in groups[h].pods;
    NumbersInRange(groups, request, e, numas);
    Int32Exact(groups[g].numaNumber);
    OneGroupPerPod(groups, request, e, numas, request[i], g, h);
  }

  lemma {:induction false} GroupedPodIsNamed(groups: seq<AffinityGroup>, pods: seq<PodItem>, g: nat, i: nat)
    requires g < |groups| && i < |pods| && RequestPods(pods)[i] in groups[g].pods
    ensures Names(Assignments(groups), pods[i].name)
  {
    var p :| 0 <= p < |groups[g].pods| && groups[g].pods[p] == RequestPods(pods)[i];
    var a := AssignmentOf(groups[g], groups[g].pods[p]);
    AssignmentTo(groups, g, p, a);
    var k :| 0 <= k < |Assignments(groups)| && Assignments(groups)[k] == a;
  }

  lemma {:induction false} GroupsHoldLinked(groups: seq<AffinityGroup>, request: seq<Pod>, e: Edges, numas: nat,
                                            g: nat, i: nat, j: nat)
    requires numas > 0 && CorrectReply(groups, request, e, numas)
    requires g < |groups| && i < |request| && j < |request| && request[i] in groups[g].pods && Connected(e, i, j)
    ensures request[j] in groups[g].pods
  {
  }

  lemma {:induction false} PartnerIsGrouped(groups: seq<AffinityGroup>, request: seq<Pod>, e: Edges, numas: nat,
                                            i: nat, j: nat)
    returns (g: nat)
    requires numas > 0 && CorrectReply(groups, request, e, numas)
    requires i < |request| && j < |request| && i != j && Connected(e, i, j)
    ensures g < |groups| && request[i] in groups[g].pods && request[j] in groups[g].pods
  {
    assert HasPartner(e, |request|, i);
    g :| 0 <= g < |groups| && request[i] in groups[g].pods;
    GroupsHoldLinked(groups, request, e, numas, g, i, j);
  }

  // ---- Which entry is a pod's own ----

  /** Placement takes an entry for a pod's when name and namespace agree; the merge looks at the name alone. */
  predicate Own(e: PodAffinity, p: PodItem) {
    e.podName == p.name && e.namespace == p.namespace
  }

  ghost predicate HasOwn(pa: seq<PodAffinity>, p: PodItem) {
    exists k :: 0 <= k < |pa| && Own(pa[k], p)
  }

  /** The pod has an entry of its own, and that entry is on this NUMA node. */
  ghost predicate OnNode(pa: seq<PodAffinity>, p: PodItem, numaNum: int) {
    exists k :: 0 <= k < |pa| && Own(pa[k], p) && pa[k].numaNum == numaNum
  }

  /** The entry that the pod's name finds, if there is one, is the pod's own. */
  predicate NameFindsOwn(pa: seq<PodAffinity>, p: PodItem) {
    var k := FirstNamed(pa, p.name);
    k < |pa| ==> pa[k].namespace == p.namespace
  }

  /** With distinct names: every entry of the name is the pod's own. */
  lemma {:induction false} NameFindsOwnExactly(pa: seq<PodAffinity>, p: PodItem)
    requires DistinctNames(pa)
    ensures NameFindsOwn(pa, p) <==> forall k :: 0 <= k < |pa| && pa[k].podName == p.name ==> Own(pa[k], p)
    ensures NameFindsOwn(pa, p) <==> HasOwn(pa, p) || !HasName(pa, p.name)
  {
    var f := FirstNamed(pa, p.name);
    assert forall k :: 0 <= k < |pa| && pa[k].podName == p.name ==> k == f;
  }

  lemma {:induction false} NamespaceForIsAssigned(todo: seq<Assignment>, name: string) returns (k: nat)
    requires Names(todo, name)
    ensures k < |todo| && todo[k].podName == name && todo[k].namespace == NamespaceFor(todo, name)
  {
    if todo[0].podName == name {
      k := 0;
    } else {
      var m :| 0 <= m < |todo| && todo[m].podName == name;
      assert todo[1..][m - 1].podName == name;
      k := NamespaceForIsAssigned(todo[1..], name);
      k := k + 1;
    }
  }

  /** Everything the reply says about a pod: it is named, always with this number and its own namespace. */
  ghost predicate AssignedTo(todo: seq<Assignment>, p: PodItem, n: int) {
    Names(todo, p.name) && forall a :: a in todo && a.podName == p.name ==> a.numaNum == n && a.namespace == p.namespace
  }

  lemma {:induction false} AssignedFields(todo: seq<Assignment>, p: PodItem, n: int, d: int)
    requires AssignedTo(todo, p, n)
    ensures NumberFor(todo, p.name, d) == n && NamespaceFor(todo, p.name) == p.namespace
  {
    var k := NumberForIsAssigned(todo, p.name, d);
    var l := NamespaceForIsAssigned(todo, p.name);
    assert todo[k] in todo && todo[l] in todo;
  }

  lemma {:induction false} GroupedPodIsAssigned(groups: seq<AffinityGroup>, pods: seq<PodItem>, e: Edges, numas: nat,
                                                g: nat, i: nat)
    requires DistinctPods(pods) && 0 < numas <= 0x8000_0000 && CorrectReply(groups, RequestPods(pods), e, numas)
    requires g < |groups| && i < |pods| && RequestPods(pods)[i] in groups[g].pods
    ensures AssignedTo(Assignments(groups), pods[i], Cycle(g, numas))
  {
    GroupedPodIsNamed(groups, pods, g, i);
    forall a | a in Assignments(groups) && a.podName == pods[i].name
      ensures a.numaNum == Cycle(g, numas) && a.namespace == pods[i].namespace
    {
      AssignmentsAgree(groups, RequestPods(pods), e, numas, g, i, a);
    }
  }

  /** Where the merge leaves the entry its name finds, and that any other own entry was there before. */
  lemma {:induction false} OwnEntriesAfterMerge(pa: seq<PodAffinity>, todo: seq<Assignment>, p: PodItem, n: int, k: nat)
    requires AssignedTo(todo, p, n) && k < |Merge(pa, todo)| && Own(Merge(pa, todo)[k], p)
    ensures k < |pa| && !IsFirst(pa, k) ==> Merge(pa, todo)[k] == pa[k]
    ensures k < |pa| && IsFirst(pa, k) ==> Merge(pa, todo)[k] == pa[k].(numaNum := n) && NameFindsOwn(pa, p)
    ensures k >= |pa| ==> !HasName(pa, p.name)
  {
    var pa' := Merge(pa, todo);
    MergeCharacter(pa, todo);
    if k < |pa| {
      assert Renumbered(pa, todo, k, pa'[k]);
      AssignedFields(todo, p, n, pa[k].numaNum);
      if IsFirst(pa, k) {
        assert FirstNamed(pa, p.name) == k;
      }
    } else {
      assert Appended(pa, todo, pa'[k]);
    }
  }

  lemma {:induction false} NameFoundIsMoved(pa: seq<PodAffinity>, todo: seq<Assignment>, p: PodItem, n: int)
    requires AssignedTo(todo, p, n) && NameFindsOwn(pa, p)
    ensures OnNode(Merge(pa, todo), p, n)
  {
    var pa', f := Merge(pa, todo), FirstNamed(pa, p.name);
    MergeCharacter(pa, todo);
    if f < |pa| {
      AssignedFields(todo, p, n, pa[f].numaNum);
      assert Renumbered(pa, todo, f, pa'[f]);
      assert Own(pa'[f], p) && pa'[f].numaNum == n;
    } else {
      assert forall k :: 0 <= k < |pa| ==> Renumbered(pa, todo, k, pa'[k]) && pa'[k].podName != p.name;
      var k :| 0 <= k < |pa'| && pa'[k].podName == p.name;
      assert Appended(pa, todo, pa'[k]);
      AssignedFields(todo, p, n, 0);
    }
  }

  lemma {:induction false} OldOwnStays(pa: seq<PodAffinity>, todo: seq<Assignment>, p: PodItem, n: int, k: nat)
    requires AssignedTo(todo, p, n) && k < |pa| && Own(pa[k], p)
    ensures k < |Merge(pa, todo)| && Own(Merge(pa, todo)[k], p)
    ensures pa[k].numaNum == n ==> Merge(pa, todo)[k].numaNum == n
  {
    MergeCharacter(pa, todo);
    assert Renumbered(pa, todo, k, Merge(pa, todo)[k]);
    AssignedFields(todo, p, n, pa[k].numaNum);
  }

  /**
   A pod the reply numbers n has an entry of its own on n exactly when its name finds its own entry or none, or another
   entry of its own is on n already; and it has an entry of its own at all exactly when it had, or none had its name.
   */
  lemma {:induction false} AssignedPodIsPlacedExactly(pa: seq<PodAffinity>, todo: seq<Assignment>, p: PodItem, n: int)
    requires AssignedTo(todo, p, n)
    ensures OnNode(Merge(pa, todo), p, n) <==> NameFindsOwn(pa, p) || OnNode(pa, p, n)
    ensures HasOwn(Merge(pa, todo), p) <==> HasOwn(pa, p) || !HasName(pa, p.name)
  {
    var pa' := Merge(pa, todo);
    if NameFindsOwn(pa, p) {
      NameFoundIsMoved(pa, todo, p, n);
      var k :| 0 <= k < |pa'| && Own(pa'[k], p) && pa'[k].numaNum == n;
      assert HasOwn(pa', p);
    }
    if k :| 0 <= k < |pa| && Own(pa[k], p) {
      OldOwnStays(pa, todo, p, n, k);
    }
    if k :| 0 <= k < |pa| && Own(pa[k], p) && pa[k].numaNum == n {
      OldOwnStays(pa, todo, p, n, k);
    }
    if k :| 0 <= k < |pa'| && Own(pa'[k], p) {
      OwnEntriesAfterMerge(pa, todo, p, n, k);
    }
    if k :| 0 <= k < |pa'| && Own(pa'[k], p) && pa'[k].numaNum == n {
      OwnEntriesAfterMerge(pa, todo, p, n, k);
    }
  }

  /** A grouped pod's own entry is on its group's NUMA node, under exactly that condition. */
  lemma {:induction false} MergedPodCarriesGroupNumber(pa: seq<PodAffinity>, groups: seq<AffinityGroup>,
                                                       pods: seq<PodItem>, e: Edges, numas: nat, g: nat, i: nat)
    requires DistinctPods(pods) && 0 < numas <= 0x8000_0000 && CorrectReply(groups, RequestPods(pods), e, numas)
    requires g < |groups| && i < |pods| && RequestPods(pods)[i] in groups[g].pods
    ensures var merged, n := Merge(pa, Assignments(groups)), Cycle(g, numas);
            && (OnNode(merged, pods[i], n) <==> NameFindsOwn(pa, pods[i]) || OnNode(pa, pods[i], n))
            && (HasOwn(merged, pods[i]) <==> HasOwn(pa, pods[i]) || !HasName(pa, pods[i].name))
  {
    GroupedPodIsAssigned(groups, pods, e, numas, g, i);
    AssignedPodIsPlacedExactly(pa, Assignments(groups), pods[i], Cycle(g, numas));
  }

  /** With distinct names a grouped pod is on its group's node, or has no entry: the entries of its name decide. */
  lemma {:induction false} DistinctNamesDecide(pa: seq<PodAffinity>, groups: seq<AffinityGroup>, pods: seq<PodItem>,
                                               e: Edges, numas: nat, g: nat, i: nat)
    requires DistinctNames(pa)
    requires DistinctPods(pods) && 0 < numas <= 0x8000_0000 && CorrectReply(groups, RequestPods(pods), e, numas)
    requires g < |groups| && i < |pods| && RequestPods(pods)[i] in groups[g].pods
    ensures var merged, own := Merge(pa, Assignments(groups)),
                               forall k :: 0 <= k < |pa| && pa[k].podName == pods[i].name ==> Own(pa[k], pods[i]);
            (OnNode(merged, pods[i], Cycle(g, numas)) <==> own) && (HasOwn(merged, pods[i]) <==> own)
  {
    MergedPodCarriesGroupNumber(pa, groups, pods, e, numas, g, i);
    NameFindsOwnExactly(pa, pods[i]);
  }

  // ---- What the pod's own entry then holds ----

  /** The containers placed for a listed pod are its own: no other listed pod has its name. */
  lemma {:induction false} JobsOfListedPod(pods: seq<PodItem>, i: nat)
    requires DistinctPods(pods) && i < |pods|
    ensures JobsNamed(pods, pods[i].name, pods[i].namespace) == PodJobs(pods[i])
    ensures QosOf(pods, pods[i].name) == pods[i].qosClass
  {
    var init, last := pods[..|pods| - 1], pods[|pods| - 1];
    if i < |init| {
      JobsOfListedPod(init, i);
      assert init[i] == pods[i] && last.name != pods[i].name;
    } else {
      JobsOfUnlistedPod(init, last.name, last.namespace);
    }
  }

  lemma {:induction false} JobsOfUnlistedPod(pods: seq<PodItem>, name: string, namespace: string)
    requires forall i :: 0 <= i < |pods| ==> pods[i].name != name || pods[i].namespace != namespace
    ensures JobsNamed(pods, name, namespace) == []
  {
    if pods != [] {
      JobsOfUnlistedPod(pods[..|pods| - 1], name, namespace);
    }
  }

  /** What the m-th container of a pod gets on a node: as many CPUs as it asks for, or all of the node. */
  ghost predicate ServesContainer(c: Container, p: PodItem, m: nat, node: NumaNode)
    requires m < |p.containers|
  {
    var spec := p.containers[m];
    && IsContainerId(p.statuses, spec.name, c.containerId)
    && (p.qosClass == GUARANTEED ==>
          && c.name == spec.name
          && |UsedCpus(c)| == if spec.cpuRequest == 1 && node.cpuset == "" then 0 else spec.cpuRequest)
    && (p.qosClass != GUARANTEED ==> c.name == "" && UsedCpus(c) == if node.cpuset == "" then [] else CpuNames(node))
  }

  /** The entry holds all of the pod's containers, each with its id and its CPUs of the entry's node. */
  ghost predicate Serves(e: PodAffinity, p: PodItem, nodes: seq<NumaNode>) {
    && 0 <= e.numaNum < |nodes| && |e.containers| == |p.containers|
    && forall m :: 0 <= m < |p.containers| ==>
         && ServesContainer(e.containers[m], p, m, nodes[e.numaNum])
         && LocalTo(e.containers[m], nodes[e.numaNum], e.numaNum)
  }

  /** Entries of listed pods hold their containers, all others hold none. */
  ghost predicate EntriesServe(pa: seq<PodAffinity>, pods: seq<PodItem>, nodes: seq<NumaNode>) {
    forall k :: 0 <= k < |pa| ==>
      && (forall i :: 0 <= i < |pods| && Own(pa[k], pods[i]) ==> Serves(pa[k], pods[i], nodes))
      && ((forall i :: 0 <= i < |pods| ==> !Own(pa[k], pods[i])) ==> pa[k].containers == [])
  }

  lemma {:induction false} GuaranteedIsServed(
    pods: seq<PodItem>, nodeOf: seq<int>, maxNode: nat, numa: seq<Numa>, pa: seq<PodAffinity>, k: nat, i: nat, m: nat)
    requires k < |pa| && i < |pods| && m < |pods[i].containers| && 0 <= pa[k].numaNum <= maxNode
    requires DistinctPods(pods) && Own(pa[k], pods[i]) && pods[i].qosClass == GUARANTEED
    requires InRange(pods, NodeMessages(nodeOf, maxNode), numa, pa[k])
    ensures var nodes := NodeMessages(nodeOf, maxNode);
            var cs := Placed(pods, nodes, numa, pa[..k], pa[k]).containers;
            |cs| == |pods[i].containers| && ServesContainer(cs[m], pods[i], m, nodes[pa[k].numaNum])
  {
    var nodes, n := NodeMessages(nodeOf, maxNode), pa[k].numaNum;
    JobsOfListedPod(pods, i);
    PodJobsAt(pods[i], |pods[i].containers|, m);
    ContainerIdIsFirst(pods[i].statuses, pods[i].containers[m].name);
    EmptyText(nodeOf, n);
    CpuNamesDistinct(nodeOf, n);
    ServedInFullExactly(pods, nodeOf, maxNode, numa, pa, k, m);
    ContainerGetsWhatItAsked(pods, nodes, numa, pa, k, m);
    LackingMeansNone(pods, nodes, numa, pa, k, m);
  }

  lemma {:induction false} LackingMeansNone(
    pods: seq<PodItem>, nodes: seq<NumaNode>, numa: seq<Numa>, pa: seq<PodAffinity>, k: nat, m: nat)
    requires k < |pa| && InRange(pods, nodes, numa, pa[k]) && Guaranteed(pods, pa[k]) && m < |JobsOf(pods, pa[k])|
    ensures var used := UsedCpus(Placed(pods, nodes, numa, pa[..k], pa[k]).containers[m]);
            |used| == JobsOf(pods, pa[k])[m].cpus || used == []
  {
    var first := GuaranteedContainer(pods, nodes, numa, pa, k, m);
    SplitAvoids(nodes[pa[k].numaNum].cpuset, ',');
    UsedCpusOfSlots(CpuNames(nodes[pa[k].numaNum]), first, JobsOf(pods, pa[k])[m], pa[k].numaNum);
  }

  lemma {:induction false} WholeNodeIsServed(
    pods: seq<PodItem>, nodes: seq<NumaNode>, numa: seq<Numa>, pa: seq<PodAffinity>, k: nat, i: nat, m: nat)
    requires k < |pa| && i < |pods| && m < |pods[i].containers| && 0 <= pa[k].numaNum < |nodes| && Mirrors(numa, nodes)
    requires DistinctPods(pods) && Own(pa[k], pods[i]) && pods[i].qosClass != GUARANTEED
    ensures var cs := Placed(pods, nodes, numa, pa[..k], pa[k]).containers;
            |cs| == |pods[i].containers| && ServesContainer(cs[m], pods[i], m, nodes[pa[k].numaNum])
  {
    JobsOfListedPod(pods, i);
    PodJobsAt(pods[i], |pods[i].containers|, m);
    ContainerIdIsFirst(pods[i].statuses, pods[i].containers[m].name);
  }

  lemma {:induction false} EntryServes(
    pods: seq<PodItem>, nodeOf: seq<int>, maxNode: nat, numa: seq<Numa>, pa: seq<PodAffinity>, k: nat, i: nat)
    requires k < |pa| && i < |pods| && 0 <= pa[k].numaNum <= maxNode && Mirrors(numa, NodeMessages(nodeOf, maxNode))
    requires DistinctPods(pods) && Own(pa[k], pods[i])
    ensures var nodes := NodeMessages(nodeOf, maxNode);
            Serves(Placed(pods, nodes, numa, pa[..k], pa[k]), pods[i], nodes)
  {
    var nodes := NodeMessages(nodeOf, maxNode);
    var e := Placed(pods, nodes, numa, pa[..k], pa[k]);
    JobsOfListedPod(pods, i);
    PlacedEntryIsLocal(pods, nodes, numa, pa, k);
    forall m | 0 <= m < |pods[i].containers|
      ensures ServesContainer(e.containers[m], pods[i], m, nodes[e.numaNum])
    {
      if pods[i].qosClass == GUARANTEED {
        GuaranteedIsServed(pods, nodeOf, maxNode, numa, pa, k, i, m);
      } else {
        WholeNodeIsServed(pods, nodes, numa, pa, k, i, m);
      }
    }
  }

  lemma {:induction false} PlacedServes(
    pods: seq<PodItem>, nodeOf: seq<int>, maxNode: nat, numa: seq<Numa>, pa: seq<PodAffinity>)
    requires Numbered(pa, maxNode + 1) && Mirrors(numa, NodeMessages(nodeOf, maxNode)) && DistinctPods(pods)
    requires AllInRange(pods, NodeMessages(nodeOf, maxNode), numa, pa)
    ensures var nodes := NodeMessages(nodeOf, maxNode);
            EntriesServe(PlacedAll(pods, nodes, numa, pa), pods, nodes)
  {
    var nodes := NodeMessages(nodeOf, maxNode);
    var out := PlacedAll(pods, nodes, numa, pa);
    forall k | 0 <= k < |out|
      ensures forall i :: 0 <= i < |pods| && Own(out[k], pods[i]) ==> Serves(out[k], pods[i], nodes)
      ensures (forall i :: 0 <= i < |pods| ==> !Own(out[k], pods[i])) ==> out[k].containers == []
    {
      PlacedAllAt(pods, nodes, numa, pa, k);
      forall i | 0 <= i < |pods| && Own(out[k], pods[i])
        ensures Serves(out[k], pods[i], nodes)
      {
        EntryServes(pods, nodeOf, maxNode, numa, pa, k, i);
      }
      if forall i :: 0 <= i < |pods| ==> !Own(out[k], pods[i]) {
        UnlistedEntryIsEmptied(pods, nodes, numa, pa[..k], pa[k]);
      }
    }
  }

  lemma {:induction false} UnlistedEntryIsEmptied(pods: seq<PodItem>, nodes: seq<NumaNode>, numa: seq<Numa>,
                                                  before: seq<PodAffinity>, e: PodAffinity)
    requires InRange(pods, nodes, numa, e) && forall i :: 0 <= i < |pods| ==> !Own(e, pods[i])
    ensures Placed(pods, nodes, numa, before, e).containers == []
  {
    JobsOfUnlistedPod(pods, e.podName, e.namespace);
  }

  // ---- Linked pods ----

  /** When a pod numbered n has an entry of its own there, and when it has one at all. */
  ghost predicate PlacedExactly(before: seq<PodAffinity>, after: seq<PodAffinity>, p: PodItem, n: int) {
    && (OnNode(after, p, n) <==> NameFindsOwn(before, p) || OnNode(before, p, n))
    && (HasOwn(after, p) <==> HasOwn(before, p) || !HasName(before, p.name))
  }

  /** Any two linked pods are sent to one common NUMA node, and are there exactly when the entries let them. */
  ghost predicate LinkedPodsMeetExactly(before: seq<PodAffinity>, after: seq<PodAffinity>, pods: seq<PodItem>, e: Edges,
                                        numas: nat) {
    forall i, j :: 0 <= i < |pods| && 0 <= j < |pods| && i != j && Connected(e, i, j) ==>
      exists n :: 0 <= n < numas && PlacedExactly(before, after, pods[i], n) && PlacedExactly(before, after, pods[j], n)
  }

  lemma {:induction false} OwnAfterPlacing(pa: seq<PodAffinity>, pa': seq<PodAffinity>, p: PodItem, n: int)
    requires SameButContainers(pa, pa')
    ensures OnNode(pa', p, n) <==> OnNode(pa, p, n)
    ensures HasOwn(pa', p) <==> HasOwn(pa, p)
  {
    assert forall k :: 0 <= k < |pa| ==> (Own(pa'[k], p) <==> Own(pa[k], p)) && pa'[k].numaNum == pa[k].numaNum;
  }

  lemma {:induction false} LinkedPodsMeet(before: seq<PodAffinity>, after: seq<PodAffinity>, groups: seq<AffinityGroup>,
                                          pods: seq<PodItem>, e: Edges, numas: nat, i: nat, j: nat)
    returns (n: nat)
    requires SameButContainers(Merge(before, Assignments(groups)), after)
    requires DistinctPods(pods) && 0 < numas <= 0x8000_0000 && CorrectReply(groups, RequestPods(pods), e, numas)
    requires i < |pods| && j < |pods| && i != j && Connected(e, i, j)
    ensures n < numas && PlacedExactly(before, after, pods[i], n) && PlacedExactly(before, after, pods[j], n)
  {
    var g := PartnerIsGrouped(groups, RequestPods(pods), e, numas, i, j);
    n := Cycle(g, numas);
    MergedPodCarriesGroupNumber(before, groups, pods, e, numas, g, i);
    MergedPodCarriesGroupNumber(before, groups, pods, e, numas, g, j);
    OwnAfterPlacing(Merge(before, Assignments(groups)), after, pods[i], n);
    OwnAfterPlacing(Merge(before, Assignments(groups)), after, pods[j], n);
  }

  lemma {:induction false} AllLinkedPodsMeet(
    before: seq<PodAffinity>, after: seq<PodAffinity>, groups: seq<AffinityGroup>, pods: seq<PodItem>, e: Edges,
    numas: nat)
    requires SameButContainers(Merge(before, Assignments(groups)), after)
    requires DistinctPods(pods) && 0 < numas <= 0x8000_0000 && CorrectReply(groups, RequestPods(pods), e, numas)
    ensures LinkedPodsMeetExactly(before, after, pods, e, numas)
  {
    forall i, j | 0 <= i < |pods| && 0 <= j < |pods| && i != j && Connected(e, i, j)
      ensures exists n :: 0 <= n < numas && PlacedExactly(before, after, pods[i], n)
                          && PlacedExactly(before, after, pods[j], n)
    {
      var n := LinkedPodsMeet(before, after, groups, pods, e, numas, i, j);
    }
  }

  /** What a reconciliation leaves, given the entries before it. */
  ghost predicate Reunited(before: seq<PodAffinity>, after: seq<PodAffinity>, pods: seq<PodItem>,
                           nodes: seq<NumaNode>, e: Edges) {
    && Numbered(after, |nodes|) && (DistinctNames(before) ==> DistinctNames(after))
    && AllLocal(after, nodes) && EntriesServe(after, pods, nodes)
    && LinkedPodsMeetExactly(before, after, pods, e, |nodes|)
  }

  /** A correct reply, merged and placed, serves every listed pod's entry and brings linked pods together. */
  lemma {:induction false} ReconciliationBringsTogether(
    before: seq<PodAffinity>, groups: seq<AffinityGroup>, pods: seq<PodItem>, e: Edges, nodeOf: seq<int>, maxNode: nat,
    numa: seq<Numa>)
    requires Numbered(before, maxNode + 1) && Mirrors(numa, NodeMessages(nodeOf, maxNode))
    requires DistinctPods(pods) && maxNode < 0x8000_0000 && CorrectReply(groups, RequestPods(pods), e, maxNode + 1)
    ensures var nodes, merged := NodeMessages(nodeOf, maxNode), Merge(before, Assignments(groups));
            && AllInRange(pods, nodes, numa, merged)
            && Reunited(before, PlacedAll(pods, nodes, numa, merged), pods, nodes, e)
  {
    var nodes, merged := NodeMessages(nodeOf, maxNode), Merge(before, Assignments(groups));
    NumbersInRange(groups, RequestPods(pods), e, |nodes|);
    MergeKeepsNumbered(before, groups, |nodes|);
    InRangeNumbersSuffice(pods, nodes, numa, merged);
    var after := PlacedAll(pods, nodes, numa, merged);
    PlacedKeepsTheRest(pods, nodes, numa, merged);
    PlacedIsLocal(pods, nodes, numa, merged);
    PlacedServes(pods, nodeOf, maxNode, numa, merged);
    AllLinkedPodsMeet(before, after, groups, pods, e, |nodes|);
  }

  /** One step of the run model; not ok means it stopped half-way. */
  ghost predicate StepDone(ok: bool, before: seq<PodAffinity>, after: seq<PodAffinity>, numa: seq<Numa>, ev: Event)
    requires ev.Reconcile?
  {
    && Possible(ev, |ev.nodes|) && (ok <==> Completes(before, numa, ev))
    && (ok ==> after == Step(before, numa, ev))
  }

  lemma {:induction false} TickIsStep(
    ok: bool, before: seq<PodAffinity>, after: seq<PodAffinity>, groups: seq<AffinityGroup>, pods: seq<PodItem>,
    nodes: seq<NumaNode>, numas: nat, numa: seq<Numa>, e: Edges)
    requires |nodes| == numas > 0 && CorrectReply(groups, RequestPods(pods), e, numas)
    requires ok <==> AllInRange(pods, nodes, numa, Merge(before, Assignments(groups)))
    requires ok ==> after == PlacedAll(pods, nodes, numa, Merge(before, Assignments(groups)))
    ensures StepDone(ok, before, after, numa, Reconcile(groups, pods, nodes))
  {
    NumbersInRange(groups, RequestPods(pods), e, numas);
  }

  // ---- Runs whose pods are all of one namespace ----

  ghost predicate AllIn(pa: seq<PodAffinity>, namespace: string) {
    forall k :: 0 <= k < |pa| ==> pa[k].namespace == namespace
  }

  /** A reply about pods of this namespace; deletions may be of any. */
  ghost predicate EventIn(ev: Event, namespace: string) {
    ev.Reconcile? ==> forall a :: a in Assignments(ev.groups) ==> a.namespace == namespace
  }

  lemma {:induction false} CorrectReplyIn(groups: seq<AffinityGroup>, pods: seq<PodItem>, nodes: seq<NumaNode>,
                                          e: Edges, numas: nat, namespace: string)
    requires numas > 0 && CorrectReply(groups, RequestPods(pods), e, numas)
    requires forall i :: 0 <= i < |pods| ==> pods[i].namespace == namespace
    ensures EventIn(Reconcile(groups, pods, nodes), namespace)
  {
    forall a | a in Assignments(groups)
      ensures a.namespace == namespace
    {
      var g, p := AssignmentFrom(groups, a);
      GroupedPodIsRequested(groups[g], RequestPods(pods), p);
    }
  }

  lemma {:induction false} MergeKeepsNamespace(pa: seq<PodAffinity>, todo: seq<Assignment>, namespace: string)
    requires AllIn(pa, namespace) && forall a :: a in todo ==> a.namespace == namespace
    ensures AllIn(Merge(pa, todo), namespace)
  {
    var pa' := Merge(pa, todo);
    MergeCharacter(pa, todo);
    forall k | 0 <= k < |pa'|
      ensures pa'[k].namespace == namespace
    {
      if k < |pa| {
        assert Renumbered(pa, todo, k, pa'[k]);
      } else {
        assert Appended(pa, todo, pa'[k]);
        var l := NamespaceForIsAssigned(todo, pa'[k].podName);
        assert todo[l] in todo;
      }
    }
  }

  lemma {:induction false} StepKeepsNamespace(pa: seq<PodAffinity>, numa: seq<Numa>, ev: Event, namespace: string)
    requires AllIn(pa, namespace) && EventIn(ev, namespace)
    ensures AllIn(Step(pa, numa, ev), namespace)
  {
    match ev
    case Reconcile(groups, pods, nodes) =>
      var merged := Merge(pa, Assignments(groups));
      MergeKeepsNamespace(pa, Assignments(groups), namespace);
      if AllInRange(pods, nodes, numa, merged) {
        PlacedKeepsTheRest(pods, nodes, numa, merged);
      }
    case PodDeleted(name, ns) =>
      var at := RemainingCharacter(pa, name, ns);
  }

  /** Along every run of replies about one namespace, entries of that namespace stay the only ones. */
  lemma {:induction false} RunKeepsNamespace(pa: seq<PodAffinity>, numa: seq<Numa>, evs: seq<Event>, namespace: string)
    requires AllIn(pa, namespace) && forall i :: 0 <= i < |evs| ==> EventIn(evs[i], namespace)
    ensures AllIn(Run(pa, numa, evs), namespace)
  {
    if evs != [] {
      RunKeepsNamespace(pa, numa, evs[..|evs| - 1], namespace);
      StepKeepsNamespace(Run(pa, numa, evs[..|evs| - 1]), numa, evs[|evs| - 1], namespace);
    }
  }

  /** Two pods have entries of their own on one NUMA node, with all their containers. */
  ghost predicate Together(pa: seq<PodAffinity>, p: PodItem, q: PodItem, nodes: seq<NumaNode>) {
    exists k, l :: 0 <= k < |pa| && 0 <= l < |pa| && pa[k].numaNum == pa[l].numaNum
                   && Own(pa[k], p) && Serves(pa[k], p, nodes) && Own(pa[l], q) && Serves(pa[l], q, nodes)
  }

  /** Linked pods whose names find their own entries, or none, run on one node after a reconciliation. */
  lemma {:induction false} LinkedPodsTogether(before: seq<PodAffinity>, after: seq<PodAffinity>, pods: seq<PodItem>,
                                              nodes: seq<NumaNode>, e: Edges, i: nat, j: nat)
    requires Reunited(before, after, pods, nodes, e)
    requires i < |pods| && j < |pods| && i != j && Connected(e, i, j)
    requires NameFindsOwn(before, pods[i]) && NameFindsOwn(before, pods[j])
    ensures Together(after, pods[i], pods[j], nodes)
  {
    var n :| 0 <= n < |nodes| && PlacedExactly(before, after, pods[i], n) && PlacedExactly(before, after, pods[j], n);
    var k :| 0 <= k < |after| && Own(after[k], pods[i]) && after[k].numaNum == n;
    var l :| 0 <= l < |after| && Own(after[l], pods[j]) && after[l].numaNum == n;
    assert Serves(after[k], pods[i], nodes) && Serves(after[l], pods[j], nodes);
  }

  /** From an entry without pods, after any run about one namespace, linked pods are brought together. */
  lemma {:induction false} FreshRunsBringTogether(
    numa: seq<Numa>, evs: seq<Event>, namespace: string, after: seq<PodAffinity>, pods: seq<PodItem>,
    nodes: seq<NumaNode>, e: Edges, i: nat, j: nat)
    requires forall m :: 0 <= m < |evs| ==> EventIn(evs[m], namespace)
    requires Reunited(Run([], numa, evs), after, pods, nodes, e)
    requires i < |pods| && j < |pods| && i != j && Connected(e, i, j)
    requires pods[i].namespace == namespace && pods[j].namespace == namespace
    ensures Together(after, pods[i], pods[j], nodes)
  {
    RunKeepsNamespace([], numa, evs, namespace);
    LinkedPodsTogether(Run([], numa, evs), after, pods, nodes, e, i, j);
  }

  // ---- A pod hidden by another namespace's entry ----

  /** A linked pod whose name has entries, none of them its own, has none after the reconciliation. */
  lemma {:induction false} HiddenPodStaysHidden(
    before: seq<PodAffinity>, groups: seq<AffinityGroup>, pods: seq<PodItem>, e: Edges, nodes: seq<NumaNode>,
    numa: seq<Numa>, i: nat, j: nat)
    requires DistinctPods(pods) && 0 < |nodes| <= 0x8000_0000 && CorrectReply(groups, RequestPods(pods), e, |nodes|)
    requires i < |pods| && j < |pods| && i != j && Connected(e, i, j)
    requires HasName(before, pods[i].name) && !HasOwn(before, pods[i])
    ensures !HasOwn(Step(before, numa, Reconcile(groups, pods, nodes)), pods[i])
  {
    var merged := Merge(before, Assignments(groups));
    var g := PartnerIsGrouped(groups, RequestPods(pods), e, |nodes|, i, j);
    MergedPodCarriesGroupNumber(before, groups, pods, e, |nodes|, g, i);
    if AllInRange(pods, nodes, numa, merged) {
      PlacedKeepsTheRest(pods, nodes, numa, merged);
      OwnAfterPlacing(merged, PlacedAll(pods, nodes, numa, merged), pods[i], 0);
    }
  }

  function Worker(name: string): PodItem {
    PodItem(name, "default", name, GUARANTEED, [ContainerSpec("main", 1)], [])
  }

  /** Two linked pods of one namespace. */
  function Pair(): (pods: seq<PodItem>)
    ensures |pods| == 2 && DistinctPods(pods)
  {
    assert "a"[0] != "b"[0];
    [Worker("a"), Worker("b")]
  }

  const LINKED: Edges := {(0, 1), (1, 0)}

  /** Some reply is correct for them. */
  lemma {:induction false} PairReply(numas: nat) returns (groups: seq<AffinityGroup>)
    requires numas > 0
    ensures CorrectReply(groups, RequestPods(Pair()), LINKED, numas)
  {
    OneEdge(LINKED, 0, 1);
    Symmetric(LINKED, 0, 1);
    Reflexive(LINKED, 0);
    Reflexive(LINKED, 1);
    groups := ReplyIn([0], [0, 0], RequestPods(Pair()), numas);
    ReplyIsCorrect([0], [0, 0], RequestPods(Pair()), LINKED, numas);
  }

  /** Pods a and b of default are linked, and a pod a of prod has an entry: default's a gets no entry, so no CPU. */
  lemma {:induction false} OtherNamespaceHidesPod(groups: seq<AffinityGroup>, nodes: seq<NumaNode>, numa: seq<Numa>)
    requires 0 < |nodes| <= 0x8000_0000 && CorrectReply(groups, RequestPods(Pair()), LINKED, |nodes|)
    ensures !HasOwn(Step([PodAffinity(0, "a", "prod", [])], numa, Reconcile(groups, Pair(), nodes)), Pair()[0])
  {
    var before := [PodAffinity(0, "a", "prod", [])];
    assert before[0].podName == Pair()[0].name == "a";
    assert "prod"[0] != "default"[0];
    OneEdge(LINKED, 0, 1);
    HiddenPodStaysHidden(before, groups, Pair(), LINKED, nodes, numa, 0, 1);
  }
}
