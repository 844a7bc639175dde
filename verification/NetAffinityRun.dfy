/** Runs of the agent under the network-affinity policy: reconciliations and pod deletions over the node entry. */
module NetAffinityRun {
  import opened Sequences
  import opened Cluster
  import opened AffinityReply
  import opened CustomResource
  import opened NumaTopology
  import opened NumafastAllocator

  datatype Event =
    | Reconcile(groups: seq<AffinityGroup>, pods: seq<PodItem>, nodes: seq<NumaNode>)
    | PodDeleted(name: string, namespace: string)

  /** The entries written back after one event; a reconciliation that stops half-way writes nothing. */
  function Step(pa: seq<PodAffinity>, numa: seq<Numa>, ev: Event): seq<PodAffinity> {
    match ev
    case Reconcile(groups, pods, nodes) =>
      var merged := Merge(pa, Assignments(groups));
      if AllInRange(pods, nodes, numa, merged) then PlacedAll(pods, nodes, numa, merged) else pa
    case PodDeleted(name, namespace) => Remaining(pa, name, namespace)
  }

  function Run(pa: seq<PodAffinity>, numa: seq<Numa>, evs: seq<Event>): seq<PodAffinity> {
    if evs == [] then pa else Step(Run(pa, numa, evs[..|evs| - 1]), numa, evs[|evs| - 1])
  }

  // ---- The invariant of every run ----

  ghost predicate Numbered(pa: seq<PodAffinity>, numas: nat) {
    forall i :: 0 <= i < |pa| ==> 0 <= pa[i].numaNum < numas
  }

  ghost predicate WellFormed(pa: seq<PodAffinity>, numas: nat) {
    DistinctNames(pa) && Numbered(pa, numas)
  }

  /** A reply numbers only nodes the agent also knows. */
  ghost predicate Possible(ev: Event, numas: nat) {
    ev.Reconcile? ==>
      && |ev.nodes| == numas
      && forall g :: 0 <= g < |ev.groups| ==> 0 <= ev.groups[g].numaNumber < numas
  }

  /** The assignment of the p-th pod of the g-th group. */
  ghost predicate FromGroup(groups: seq<AffinityGroup>, g: nat, p: nat, a: Assignment) {
    g < |groups| && p < |groups[g].pods| && a == AssignmentOf(groups[g], groups[g].pods[p])
  }

  lemma {:induction false} AssignmentFrom(groups: seq<AffinityGroup>, a: Assignment) returns (g: nat, p: nat)
    requires a in Assignments(groups)
    ensures FromGroup(groups, g, p, a)
  {
    var init, last := groups[..|groups| - 1], groups[|groups| - 1];
    if a in Assignments(init) {
      g, p := AssignmentFrom(init, a);
      assert groups[g] == init[g];
    } else {
      g := |groups| - 1;
      p :| 0 <= p < |last.pods| && GroupAssignments(last)[p] == a;
    }
  }

  lemma {:induction false} AssignmentTo(groups: seq<AffinityGroup>, g: nat, p: nat, a: Assignment)
    requires FromGroup(groups, g, p, a)
    ensures a in Assignments(groups)
  {
    var init, last := groups[..|groups| - 1], groups[|groups| - 1];
    if g < |init| {
      AssignmentTo(init, g, p, a);
    } else {
      assert GroupAssignments(last)[p] == a;
    }
  }

  /** The number a name gets is that of one of its assignments. */
  lemma {:induction false} NumberForIsAssigned(todo: seq<Assignment>, name: string, d: int) returns (k: nat)
    requires Names(todo, name)
    ensures k < |todo| && todo[k].podName == name && todo[k].numaNum == NumberFor(todo, name, d)
  {
    NamesStep(todo, name);
    if todo[|todo| - 1].podName == name {
      k := |todo| - 1;
    } else {
      k := NumberForIsAssigned(todo[..|todo| - 1], name, d);
    }
  }

  lemma {:induction false} NumberForUnnamed(todo: seq<Assignment>, name: string, d: int)
    requires !Names(todo, name)
    ensures NumberFor(todo, name, d) == d
  {
    if todo != [] {
      NamesStep(todo, name);
      assert todo[|todo| - 1].podName != name;
      NumberForUnnamed(todo[..|todo| - 1], name, d);
    }
  }

  lemma {:induction false} Int32Exact(x: int)
    requires 0 <= x < 0x8000_0000
    ensures Int32(x) == x
  {
  }

  lemma {:induction false} AssignedNumber(groups: seq<AffinityGroup>, numas: nat, name: string, d: int)
    requires numas <= 0x8000_0000 && forall g :: 0 <= g < |groups| ==> 0 <= groups[g].numaNumber < numas
    ensures Names(Assignments(groups), name) ==> 0 <= NumberFor(Assignments(groups), name, d) < numas
    ensures !Names(Assignments(groups), name) ==> NumberFor(Assignments(groups), name, d) == d
  {
    var todo := Assignments(groups);
    if Names(todo, name) {
      var k := NumberForIsAssigned(todo, name, d);
      var g, p := AssignmentFrom(groups, todo[k]);
      Int32Exact(groups[g].numaNumber);
    } else {
      NumberForUnnamed(todo, name, d);
    }
  }

  lemma {:induction false} MergeKeepsNumbered(pa: seq<PodAffinity>, groups: seq<AffinityGroup>, numas: nat)
    requires Numbered(pa, numas) && numas <= 0x8000_0000
    requires forall g :: 0 <= g < |groups| ==> 0 <= groups[g].numaNumber < numas
    ensures Numbered(Merge(pa, Assignments(groups)), numas)
    ensures DistinctNames(pa) ==> DistinctNames(Merge(pa, Assignments(groups)))
  {
    var todo := Assignments(groups);
    var pa' := Merge(pa, todo);
    MergeCharacter(pa, todo);
    forall i | 0 <= i < |pa'|
      ensures 0 <= pa'[i].numaNum < numas
    {
      if i < |pa| {
        assert Renumbered(pa, todo, i, pa'[i]);
        AssignedNumber(groups, numas, pa[i].podName, pa[i].numaNum);
      } else {
        assert Appended(pa, todo, pa'[i]);
        AssignedNumber(groups, numas, pa'[i].podName, 0);
      }
    }
  }

  lemma {:induction false} InRangeNumbersSuffice(pods: seq<PodItem>, nodes: seq<NumaNode>, numa: seq<Numa>,
                                                 pa: seq<PodAffinity>)
    requires |numa| == |nodes| && Numbered(pa, |nodes|)
    ensures AllInRange(pods, nodes, numa, pa)
  {
    if pa != [] {
      InRangeNumbersSuffice(pods, nodes, numa, pa[..|pa| - 1]);
    }
  }

  /** Placing changes nothing but containers. */
  lemma {:induction false} PlacedKeepsTheRest(pods: seq<PodItem>, nodes: seq<NumaNode>, numa: seq<Numa>,
                                              pa: seq<PodAffinity>)
    requires AllInRange(pods, nodes, numa, pa)
    ensures SameButContainers(pa, PlacedAll(pods, nodes, numa, pa))
  {
    if pa != [] {
      PlacedKeepsTheRest(pods, nodes, numa, pa[..|pa| - 1]);
    }
  }

  ghost predicate SameButContainers(pa: seq<PodAffinity>, pa': seq<PodAffinity>) {
    |pa'| == |pa| && forall i :: 0 <= i < |pa| ==> pa'[i] == pa[i].(containers := pa'[i].containers)
  }

  /** A reconciliation finds every number in range, so it runs to its end. */
  ghost predicate Completes(pa: seq<PodAffinity>, numa: seq<Numa>, ev: Event) {
    ev.Reconcile? ==> AllInRange(ev.pods, ev.nodes, numa, Merge(pa, Assignments(ev.groups)))
  }

  /** A reconciliation that stops half-way writes nothing. */
  lemma {:induction false} StoppedWritesNothing(pa: seq<PodAffinity>, numa: seq<Numa>, ev: Event)
    requires !Completes(pa, numa, ev)
    ensures Step(pa, numa, ev) == pa
  {
  }

  lemma {:induction false} StepKeepsWellFormed(pa: seq<PodAffinity>, numa: seq<Numa>, ev: Event)
    requires WellFormed(pa, |numa|) && Possible(ev, |numa|) && |numa| <= 0x8000_0000
    ensures WellFormed(Step(pa, numa, ev), |numa|)
    ensures Completes(pa, numa, ev)
  {
    match ev
    case Reconcile(groups, pods, nodes) =>
      var merged := Merge(pa, Assignments(groups));
      MergeKeepsNumbered(pa, groups, |numa|);
      InRangeNumbersSuffice(pods, nodes, numa, merged);
      PlacedKeepsTheRest(pods, nodes, numa, merged);
    case PodDeleted(name, namespace) =>
      var at := RemainingCharacter(pa, name, namespace);
  }

  /** The i-th event of a run completes where it comes. */
  ghost predicate CompletesAt(pa: seq<PodAffinity>, numa: seq<Numa>, evs: seq<Event>, i: nat)
    requires i < |evs|
  {
    Completes(Run(pa, numa, evs[..i]), numa, evs[i])
  }

  lemma {:induction false} CompletesInPrefix(pa: seq<PodAffinity>, numa: seq<Numa>, evs: seq<Event>, i: nat)
    requires i < |evs| - 1
    ensures CompletesAt(pa, numa, evs, i) <==> CompletesAt(pa, numa, evs[..|evs| - 1], i)
  {
    assert evs[..|evs| - 1][..i] == evs[..i];
  }

  lemma {:induction false} CompletesOneMore(pa: seq<PodAffinity>, numa: seq<Numa>, evs: seq<Event>, i: nat)
    requires i < |evs|
    requires i < |evs| - 1 ==> CompletesAt(pa, numa, evs[..|evs| - 1], i)
    requires Completes(Run(pa, numa, evs[..|evs| - 1]), numa, evs[|evs| - 1])
    ensures CompletesAt(pa, numa, evs, i)
  {
    if i < |evs| - 1 {
      CompletesInPrefix(pa, numa, evs, i);
    }
  }

  /** Along every run names stay distinct, numbers stay node indices, and no reconciliation stops half-way. */
  lemma {:induction false} RunKeepsWellFormed(pa: seq<PodAffinity>, numa: seq<Numa>, evs: seq<Event>)
    requires WellFormed(pa, |numa|) && |numa| <= 0x8000_0000
    requires forall i :: 0 <= i < |evs| ==> Possible(evs[i], |numa|)
    ensures WellFormed(Run(pa, numa, evs), |numa|)
    ensures forall i :: 0 <= i < |evs| ==> CompletesAt(pa, numa, evs, i)
  {
    if evs != [] {
      var init := evs[..|evs| - 1];
      RunKeepsWellFormed(pa, numa, init);
      StepKeepsWellFormed(Run(pa, numa, init), numa, evs[|evs| - 1]);
      forall i | 0 <= i < |evs|
        ensures CompletesAt(pa, numa, evs, i)
      {
        CompletesOneMore(pa, numa, evs, i);
      }
    }
  }

  // ---- Every run refines a run over a table from names to (number, namespace) ----

  type Table = map<string, (int, string)>

  function AsTable(pa: seq<PodAffinity>): Table {
    if pa == [] then map[]
    else
      var e := pa[|pa| - 1];
      AsTable(pa[..|pa| - 1])[e.podName := (e.numaNum, e.namespace)]
  }

  function TableAssign(t: Table, a: Assignment): Table {
    t[a.podName := (a.numaNum, if a.podName in t then t[a.podName].1 else a.namespace)]
  }

  function TableMerge(t: Table, todo: seq<Assignment>): Table {
    if todo == [] then t else TableAssign(TableMerge(t, todo[..|todo| - 1]), todo[|todo| - 1])
  }

  function TableStep(t: Table, ev: Event): Table {
    match ev
    case Reconcile(groups, _, _) => TableMerge(t, Assignments(groups))
    case PodDeleted(name, namespace) => TableRemove(t, name, namespace)
  }

  function TableRun(t: Table, evs: seq<Event>): Table {
    if evs == [] then t else TableStep(TableRun(t, evs[..|evs| - 1]), evs[|evs| - 1])
  }

  /** The table has exactly the entries' names, with their numbers and namespaces. */
  ghost predicate Lists(pa: seq<PodAffinity>, t: Table) {
    && (forall i :: 0 <= i < |pa| ==> pa[i].podName in t && t[pa[i].podName] == (pa[i].numaNum, pa[i].namespace))
    && (forall name :: name in t ==> HasName(pa, name))
  }

  lemma {:induction false} AsTableLists(pa: seq<PodAffinity>)
    requires DistinctNames(pa)
    ensures Lists(pa, AsTable(pa))
  {
    if pa != [] {
      AsTableLists(pa[..|pa| - 1]);
      ListsStep(pa, AsTable(pa[..|pa| - 1]));
    }
  }

  lemma {:induction false} ListsStep(pa: seq<PodAffinity>, t: Table)
    requires pa != [] && DistinctNames(pa) && Lists(pa[..|pa| - 1], t)
    ensures Lists(pa, t[pa[|pa| - 1].podName := (pa[|pa| - 1].numaNum, pa[|pa| - 1].namespace)])
  {
    var init, last := pa[..|pa| - 1], pa[|pa| - 1];
    assert forall i :: 0 <= i < |init| ==> init[i] == pa[i];
    assert pa[|pa| - 1].podName == last.podName;
    forall name | name in t
      ensures HasName(pa, name)
    {
      var i :| 0 <= i < |init| && init[i].podName == name;
      assert pa[i].podName == name;
    }
  }

  lemma {:induction false} ListsDetermines(pa: seq<PodAffinity>, t: Table, t': Table)
    requires Lists(pa, t) && Lists(pa, t')
    ensures t == t'
  {
    assert forall name :: name in t <==> HasName(pa, name);
    assert forall name :: name in t' <==> HasName(pa, name);
  }

  lemma {:induction false} AsTableIgnoresContainers(pa: seq<PodAffinity>, pa': seq<PodAffinity>)
    requires SameButContainers(pa, pa')
    ensures AsTable(pa') == AsTable(pa)
  {
    if pa != [] {
      AsTableIgnoresContainers(pa[..|pa| - 1], pa'[..|pa| - 1]);
    }
  }

  lemma {:induction false} AssignRefines(pa: seq<PodAffinity>, a: Assignment)
    requires DistinctNames(pa)
    ensures DistinctNames(Assign(pa, a)) && AsTable(Assign(pa, a)) == TableAssign(AsTable(pa), a)
  {
    AsTableLists(pa);
    AsTableLists(Assign(pa, a));
    AssignLists(pa, AsTable(pa), a);
    ListsDetermines(Assign(pa, a), AsTable(Assign(pa, a)), TableAssign(AsTable(pa), a));
  }

  lemma {:induction false} AssignLists(pa: seq<PodAffinity>, t: Table, a: Assignment)
    requires DistinctNames(pa) && Lists(pa, t)
    ensures Lists(Assign(pa, a), TableAssign(t, a))
  {
    var at, pa' := FirstNamed(pa, a.podName), Assign(pa, a);
    assert pa'[at].podName == a.podName;
    forall name | name in TableAssign(t, a)
      ensures HasName(pa', name)
    {
      if name != a.podName {
        var i :| 0 <= i < |pa| && pa[i].podName == name;
        assert pa'[i].podName == name;
      }
    }
    forall i | 0 <= i < |pa'|
      ensures pa'[i].podName in TableAssign(t, a)
      ensures TableAssign(t, a)[pa'[i].podName] == (pa'[i].numaNum, pa'[i].namespace)
    {
      if i < |pa| && i != at {
        assert pa'[i] == pa[i];
      }
    }
  }

  lemma {:induction false} MergeRefines(pa: seq<PodAffinity>, todo: seq<Assignment>)
    requires DistinctNames(pa)
    ensures DistinctNames(Merge(pa, todo)) && AsTable(Merge(pa, todo)) == TableMerge(AsTable(pa), todo)
  {
    if todo != [] {
      MergeRefines(pa, todo[..|todo| - 1]);
      AssignRefines(Merge(pa, todo[..|todo| - 1]), todo[|todo| - 1]);
    }
  }

  function TableRemove(t: Table, name: string, namespace: string): Table {
    if name in t && t[name].1 == namespace then t - {name} else t
  }

  lemma {:induction false} RemainingRefines(pa: seq<PodAffinity>, name: string, namespace: string)
    requires DistinctNames(pa)
    ensures AsTable(Remaining(pa, name, namespace)) == TableRemove(AsTable(pa), name, namespace)
  {
    var left := Remaining(pa, name, namespace);
    var at := RemainingCharacter(pa, name, namespace);
    AsTableLists(pa);
    AsTableLists(left);
    RemainingLists(pa, AsTable(pa), name, namespace, left, at);
    ListsDetermines(left, AsTable(left), TableRemove(AsTable(pa), name, namespace));
  }

  lemma {:induction false} RemainingLists(pa: seq<PodAffinity>, t: Table, name: string, namespace: string,
                                           left: seq<PodAffinity>, at: seq<nat>)
    requires DistinctNames(pa) && Lists(pa, t) && Filtered(pa, name, namespace, left, at)
    ensures Lists(left, TableRemove(t, name, namespace))
  {
    forall k | 0 <= k < |left|
      ensures left[k].podName in TableRemove(t, name, namespace)
      ensures TableRemove(t, name, namespace)[left[k].podName] == (left[k].numaNum, left[k].namespace)
    {
      assert at[k] in at;
    }
    forall x | x in TableRemove(t, name, namespace)
      ensures HasName(left, x)
    {
      var i :| 0 <= i < |pa| && pa[i].podName == x;
      assert i in at;
      var k :| 0 <= k < |at| && at[k] == i;
      assert left[k].podName == x;
    }
  }

  /** Searching and compacting lists gives, after any run, what the table gives. */
  lemma {:induction false} RunRefinesTable(pa: seq<PodAffinity>, numa: seq<Numa>, evs: seq<Event>)
    requires WellFormed(pa, |numa|) && |numa| <= 0x8000_0000
    requires forall i :: 0 <= i < |evs| ==> Possible(evs[i], |numa|)
    ensures AsTable(Run(pa, numa, evs)) == TableRun(AsTable(pa), evs)
  {
    if evs != [] {
      var init, ev := evs[..|evs| - 1], evs[|evs| - 1];
      RunKeepsWellFormed(pa, numa, init);
      RunRefinesTable(pa, numa, init);
      StepRefines(Run(pa, numa, init), numa, ev);
    }
  }

  lemma {:induction false} StepRefines(pa: seq<PodAffinity>, numa: seq<Numa>, ev: Event)
    requires WellFormed(pa, |numa|) && Possible(ev, |numa|) && |numa| <= 0x8000_0000
    ensures AsTable(Step(pa, numa, ev)) == TableStep(AsTable(pa), ev)
  {
    StepKeepsWellFormed(pa, numa, ev);
    match ev
    case Reconcile(groups, pods, nodes) =>
      MergeRefines(pa, Assignments(groups));
      PlacedKeepsTheRest(pods, nodes, numa, Merge(pa, Assignments(groups)));
      AsTableIgnoresContainers(Merge(pa, Assignments(groups)), Step(pa, numa, ev));
    case PodDeleted(name, namespace) =>
      RemainingRefines(pa, name, namespace);
  }

  // ---- What placing gives an entry ----

  /** Every container of the entry runs on the CPUs and the memory of the entry's NUMA node. */
  ghost predicate EntryLocal(e: PodAffinity, nodes: seq<NumaNode>) {
    forall m :: 0 <= m < |e.containers| ==>
      0 <= e.numaNum < |nodes| && LocalTo(e.containers[m], nodes[e.numaNum], e.numaNum)
  }

  ghost predicate AllLocal(pa: seq<PodAffinity>, nodes: seq<NumaNode>) {
    forall i :: 0 <= i < |pa| ==> EntryLocal(pa[i], nodes)
  }

  lemma {:induction false} PlacedIsLocal(
    pods: seq<PodItem>, nodes: seq<NumaNode>, numa: seq<Numa>, pa: seq<PodAffinity>)
    requires AllInRange(pods, nodes, numa, pa) && Mirrors(numa, nodes)
    ensures AllLocal(PlacedAll(pods, nodes, numa, pa), nodes)
  {
    forall i | 0 <= i < |pa|
      ensures EntryLocal(PlacedAll(pods, nodes, numa, pa)[i], nodes)
    {
      PlacedAllAt(pods, nodes, numa, pa, i);
      PlacedEntryIsLocal(pods, nodes, numa, pa, i);
    }
  }

  lemma {:induction false} PlacedEntryIsLocal(
    pods: seq<PodItem>, nodes: seq<NumaNode>, numa: seq<Numa>, pa: seq<PodAffinity>, i: nat)
    requires i < |pa| && InRange(pods, nodes, numa, pa[i]) && Mirrors(numa, nodes)
    ensures EntryLocal(Placed(pods, nodes, numa, pa[..i], pa[i]), nodes)
  {
    var e := Placed(pods, nodes, numa, pa[..i], pa[i]);
    forall m | 0 <= m < |e.containers|
      ensures 0 <= e.numaNum < |nodes| && LocalTo(e.containers[m], nodes[e.numaNum], e.numaNum)
    {
      ContainersAreLocal(pods, nodes, numa, pa, i, m);
    }
  }

  /** On the server's topology a Guaranteed container lacks CPUs only when it asked an empty node for a single one. */
  lemma {:induction false} ServedInFullExactly(
    pods: seq<PodItem>, nodeOf: seq<int>, maxNode: nat, numa: seq<Numa>, pa: seq<PodAffinity>, i: nat, m: nat)
    requires i < |pa| && 0 <= pa[i].numaNum <= maxNode && Guaranteed(pods, pa[i]) && m < |JobsOf(pods, pa[i])|
    ensures var c := Placed(pods, NodeMessages(nodeOf, maxNode), numa, pa[..i], pa[i]).containers[m];
            var job := JobsOf(pods, pa[i])[m];
            |UsedCpus(c)| == job.cpus <==> !(job.cpus == 1 && Empty(nodeOf, pa[i].numaNum))
  {
    var cpus := CpuNames(NodeMessage(nodeOf, pa[i].numaNum));
    NodesWithCpusHaveRealNames(nodeOf, pa[i].numaNum);
    CpuNamesOfMessage(nodeOf, pa[i].numaNum);
    RealNamesCharacter(cpus);
    ContainerGetsWhatItAsked(pods, NodeMessages(nodeOf, maxNode), numa, pa, i, m);
    assert Wheel(cpus, FirstSlot(pods, pa, i, m)) in cpus;
  }

  // ---- When a pod that gets a whole node has it to itself ----

  /** The CPUs an entry's containers name. */
  function EntryCpus(e: PodAffinity): seq<string> {
    Concat(UsedByEach(e.containers))
  }

  lemma {:induction false} EntryCpusContain(e: PodAffinity, x: string)
    ensures x in EntryCpus(e) <==> exists m :: 0 <= m < |e.containers| && x in UsedCpus(e.containers[m])
  {
    ConcatContains(UsedByEach(e.containers), x);
  }

  /** The entry asks for any CPU: a Guaranteed pod by its requests, another by having a container. */
  predicate Asks(pods: seq<PodItem>, e: PodAffinity) {
    if Guaranteed(pods, e) then Total(JobsOf(pods, e)) > 0 else JobsOf(pods, e) != []
  }

  lemma {:induction false} EntryCpusAreLocal(e: PodAffinity, nodes: seq<NumaNode>, x: string)
    requires EntryLocal(e, nodes) && x in EntryCpus(e)
    ensures 0 <= e.numaNum < |nodes| && x in CpuNames(nodes[e.numaNum])
  {
    EntryCpusContain(e, x);
    var m :| 0 <= m < |e.containers| && x in UsedCpus(e.containers[m]);
    assert LocalTo(e.containers[m], nodes[e.numaNum], e.numaNum);
  }

  /** A message's text is empty exactly when the node is. */
  lemma {:induction false} EmptyText(nodeOf: seq<int>, n: nat)
    ensures NodeMessage(nodeOf, n).cpuset == "" <==> Empty(nodeOf, n)
  {
    CpuNamesOfMessage(nodeOf, n);
    NodesWithCpusHaveRealNames(nodeOf, n);
    RealNamesCharacter([""]);
    assert "" in [""] && !RealName("");
  }

  /** What a pod that gets a whole node names. */
  lemma {:induction false} WholeNodeCpus(pods: seq<PodItem>, nodes: seq<NumaNode>, numa: seq<Numa>,
                                         before: seq<PodAffinity>, e: PodAffinity, x: string)
    requires !Guaranteed(pods, e) && JobsOf(pods, e) != [] && 0 <= e.numaNum < |nodes| && Mirrors(numa, nodes)
    ensures x in EntryCpus(Placed(pods, nodes, numa, before, e))
            <==> nodes[e.numaNum].cpuset != "" && x in CpuNames(nodes[e.numaNum])
  {
    var placed := Placed(pods, nodes, numa, before, e);
    EntryCpusContain(placed, x);
    assert UsedCpus(placed.containers[0])
           == if nodes[e.numaNum].cpuset == "" then [] else CpuNames(nodes[e.numaNum]);
  }

  /** An entry on a node with CPUs names one exactly when it asks for any. */
  lemma {:induction false} EntryNamesSomeExactly(
    pods: seq<PodItem>, nodeOf: seq<int>, maxNode: nat, numa: seq<Numa>, pa: seq<PodAffinity>, j: nat)
    requires j < |pa| && 0 <= pa[j].numaNum <= maxNode && Mirrors(numa, NodeMessages(nodeOf, maxNode))
    requires !Empty(nodeOf, pa[j].numaNum)
    ensures EntryCpus(Placed(pods, NodeMessages(nodeOf, maxNode), numa, pa[..j], pa[j])) != [] <==> Asks(pods, pa[j])
  {
    var nodes, e, jobs := NodeMessages(nodeOf, maxNode), pa[j], JobsOf(pods, pa[j]);
    var placed := Placed(pods, nodes, numa, pa[..j], e);
    NodesWithCpusHaveRealNames(nodeOf, e.numaNum);
    if Guaranteed(pods, e) {
      UsedByPod(jobs, CpuNames(nodes[e.numaNum]), HandedOut(pods, pa[..j], e.numaNum), e.numaNum);
    } else if jobs == [] {
      assert UsedByEach(placed.containers) == [];
    } else {
      EmptyText(nodeOf, e.numaNum);
      WholeNodeCpus(pods, nodes, numa, pa[..j], e, CpuNames(nodes[e.numaNum])[0]);
    }
  }

  /** The CPUs of a pod that gets a whole node meet another entry's exactly when that one asks for any there. */
  lemma {:induction false} WholeNodeSharedExactly(
    pods: seq<PodItem>, nodeOf: seq<int>, maxNode: nat, numa: seq<Numa>, pa: seq<PodAffinity>, i: nat, j: nat)
    requires i < |pa| && j < |pa| && Mirrors(numa, NodeMessages(nodeOf, maxNode))
    requires 0 <= pa[i].numaNum <= maxNode && 0 <= pa[j].numaNum <= maxNode
    requires !Guaranteed(pods, pa[i]) && JobsOf(pods, pa[i]) != []
    ensures var nodes := NodeMessages(nodeOf, maxNode);
            Overlap(EntryCpus(Placed(pods, nodes, numa, pa[..i], pa[i])),
                    EntryCpus(Placed(pods, nodes, numa, pa[..j], pa[j])))
            <==> pa[i].numaNum == pa[j].numaNum && !Empty(nodeOf, pa[i].numaNum) && Asks(pods, pa[j])
  {
    var nodes := NodeMessages(nodeOf, maxNode);
    var a := Placed(pods, nodes, numa, pa[..i], pa[i]);
    var b := Placed(pods, nodes, numa, pa[..j], pa[j]);
    PlacedEntryIsLocal(pods, nodes, numa, pa, j);
    EmptyText(nodeOf, pa[i].numaNum);
    if x :| x in EntryCpus(a) && x in EntryCpus(b) {
      WholeNodeCpus(pods, nodes, numa, pa[..i], pa[i], x);
      EntryCpusAreLocal(b, nodes, x);
      if pa[i].numaNum != pa[j].numaNum {
        CpuNamesOverlap(nodeOf, pa[i].numaNum, pa[j].numaNum);
        assert false;
      } else {
        EntryNamesSomeExactly(pods, nodeOf, maxNode, numa, pa, j);
      }
    }
    if pa[i].numaNum == pa[j].numaNum && !Empty(nodeOf, pa[i].numaNum) && Asks(pods, pa[j]) {
      EntryNamesSomeExactly(pods, nodeOf, maxNode, numa, pa, j);
      var x := EntryCpus(b)[0];
      EntryCpusAreLocal(b, nodes, x);
      WholeNodeCpus(pods, nodes, numa, pa[..i], pa[i], x);
    }
  }

  /** No entry but the i-th asks for a CPU of its node. */
  ghost predicate AskedByNoOther(pods: seq<PodItem>, pa: seq<PodAffinity>, i: nat)
    requires i < |pa|
  {
    forall j :: 0 <= j < |pa| && j != i && pa[j].numaNum == pa[i].numaNum ==> !Asks(pods, pa[j])
  }

  ghost predicate AloneOnItsCpus(pa: seq<PodAffinity>, i: nat)
    requires i < |pa|
  {
    forall j :: 0 <= j < |pa| && j != i ==> !Overlap(EntryCpus(pa[i]), EntryCpus(pa[j]))
  }

  /**
   A pod that gets a whole node has it to itself exactly when the node is empty or no other entry asks for any of it.
   */
  lemma {:induction false} WholeNodeAloneExactly(
    pods: seq<PodItem>, nodeOf: seq<int>, maxNode: nat, numa: seq<Numa>, pa: seq<PodAffinity>, i: nat)
    requires i < |pa| && Mirrors(numa, NodeMessages(nodeOf, maxNode))
    requires forall j :: 0 <= j < |pa| ==> 0 <= pa[j].numaNum <= maxNode
    requires AllInRange(pods, NodeMessages(nodeOf, maxNode), numa, pa)
    requires !Guaranteed(pods, pa[i]) && JobsOf(pods, pa[i]) != []
    ensures AloneOnItsCpus(PlacedAll(pods, NodeMessages(nodeOf, maxNode), numa, pa), i)
            <==> Empty(nodeOf, pa[i].numaNum) || AskedByNoOther(pods, pa, i)
  {
    var nodes := NodeMessages(nodeOf, maxNode);
    var out := PlacedAll(pods, nodes, numa, pa);
    PlacedAllAt(pods, nodes, numa, pa, i);
    forall j | 0 <= j < |pa|
      ensures Overlap(EntryCpus(out[i]), EntryCpus(out[j]))
              <==> pa[i].numaNum == pa[j].numaNum && !Empty(nodeOf, pa[i].numaNum) && Asks(pods, pa[j])
    {
      PlacedAllAt(pods, nodes, numa, pa, j);
      WholeNodeSharedExactly(pods, nodeOf, maxNode, numa, pa, i, j);
    }
  }

  /** The entry that start-up leaves mirrors the topology the server reports. */
  lemma {:induction false} SetupMirrors(numa: seq<Numa>, nodeOf: seq<int>, maxNode: nat)
    requires maxNode < 0x8000_0000 && |numa| == maxNode + 1
    requires forall n :: 0 <= n <= maxNode ==> numa[n] == NumaOf(NodeMessage(nodeOf, n))
    ensures Mirrors(numa, NodeMessages(nodeOf, maxNode))
  {
    forall n | 0 <= n <= maxNode
      ensures numa[n] == Numa(n, NodeMessage(nodeOf, n).cpuset, NodeMessage(nodeOf, n).memset)
    {
      Int32Exact(n);
    }
  }

  function BestEffort(name: string): PodItem {
    PodItem(name, "ns", name, "BestEffort", [ContainerSpec("main", 0)], [])
  }

  lemma {:induction false} BestEffortJobs(a: string, b: string, e: PodAffinity)
    requires e.podName == a || e.podName == b
    requires e.namespace == "ns"
    ensures !Guaranteed([BestEffort(a), BestEffort(b)], e) && JobsOf([BestEffort(a), BestEffort(b)], e) != []
  {
    var pods, first := [BestEffort(a), BestEffort(b)], [BestEffort(a)];
    assert pods[..1] == first && first[..0] == [];
    assert "BestEffort"[0] != GUARANTEED[0];
    assert QosOf(pods, e.podName) == "BestEffort";
    assert |PodJobs(BestEffort(a))| == 1 && |PodJobs(BestEffort(b))| == 1;
    if e.podName == a {
      assert |JobsNamed(first, a, "ns")| == 1;
    }
    assert |JobsNamed(pods, e.podName, "ns")| >= 1;
  }

  /** Two pods of one container each, not Guaranteed, whose entries are both on the only node: they share its CPU. */
  lemma {:induction false} TwoPodsShareANode()
    ensures var pods := [BestEffort("a"), BestEffort("b")];
            var pa := [PodAffinity(0, "a", "ns", []), PodAffinity(0, "b", "ns", [])];
            var nodes := NodeMessages([0], 0);
            var numa := [NumaOf(nodes[0])];
            && AllInRange(pods, nodes, numa, pa)
            && !AloneOnItsCpus(PlacedAll(pods, nodes, numa, pa), 0)
  {
    var pods := [BestEffort("a"), BestEffort("b")];
    var pa := [PodAffinity(0, "a", "ns", []), PodAffinity(0, "b", "ns", [])];
    var numa := [NumaOf(NodeMessages([0], 0)[0])];
    InRangeNumbersSuffice(pods, NodeMessages([0], 0), numa, pa);
    BestEffortJobs("a", "b", pa[0]);
    BestEffortJobs("a", "b", pa[1]);
    assert IndicesOf([0], 0) == [0];
    SetupMirrors(numa, [0], 0);
    WholeNodeAloneExactly(pods, [0], 0, numa, pa, 0);
    assert Asks(pods, pa[1]);
  }
}
