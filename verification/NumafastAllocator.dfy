/**
 CPUs for the pods of the node entry under the network-affinity policy: a Guaranteed pod's containers take
 their CPUs from the pod's NUMA node with one rotating cursor per node, any other pod's get the whole node.
 */
module NumafastAllocator {
  import opened Sequences
  import opened Text
  import opened Cluster
  import opened CustomResource
  import opened NumaTopology
  import opened RoundRobin

  /** The quality class recorded for a pod name; the last listed pod of that name decides. */
  function QosOf(pods: seq<PodItem>, name: string): string {
    if pods == [] then ""
    else if pods[|pods| - 1].name == name then pods[|pods| - 1].qosClass
    else QosOf(pods[..|pods| - 1], name)
  }

  /** Pod i is the last listed one of this name. */
  ghost predicate LastListed(pods: seq<PodItem>, name: string, i: nat) {
    i < |pods| && pods[i].name == name && forall j :: i < j < |pods| ==> pods[j].name != name
  }

  /** The quality class is that of the last listed pod of the name. */
  lemma {:induction false} LastPodDecidesQos(pods: seq<PodItem>, name: string, i: nat)
    requires LastListed(pods, name, i)
    ensures QosOf(pods, name) == pods[i].qosClass
  {
    if i < |pods| - 1 {
      assert LastListed(pods[..|pods| - 1], name, i);
      LastPodDecidesQos(pods[..|pods| - 1], name, i);
    }
  }

  lemma {:induction false} UnlistedHasNoQos(pods: seq<PodItem>, name: string)
    requires forall i :: 0 <= i < |pods| ==> pods[i].name != name
    ensures QosOf(pods, name) == ""
  {
    if pods != [] {
      UnlistedHasNoQos(pods[..|pods| - 1], name);
    }
  }

  predicate Guaranteed(pods: seq<PodItem>, e: PodAffinity) {
    QosOf(pods, e.podName) == GUARANTEED
  }

  function JobsOf(pods: seq<PodItem>, e: PodAffinity): seq<Job> {
    JobsNamed(pods, e.podName, e.namespace)
  }

  // ---- What each entry gets, without cursors ----

  /** Slot t of a wheel that repeats `cpus` forever. */
  function Wheel(cpus: seq<string>, t: nat): string
    requires |cpus| > 0
  {
    cpus[Cycle(t, |cpus|)]
  }

  /** The wheel counts round and round. */
  lemma {:induction false} WheelIsModulo(cpus: seq<string>, t: nat)
    requires |cpus| > 0
    ensures Wheel(cpus, t) == cpus[t % |cpus|]
  {
    CycleIsModulo(t, |cpus|);
  }

  /** The names on the slots start, start+1, ..., start+q-1. */
  function Slots(cpus: seq<string>, start: nat, q: nat): (r: seq<string>)
    requires |cpus| > 0
    ensures |r| == q
  {
    if q == 0 then [] else Slots(cpus, start, q - 1) + [Wheel(cpus, start + q - 1)]
  }

  lemma {:induction false} SlotsAt(cpus: seq<string>, start: nat, q: nat, k: nat)
    requires |cpus| > 0 && k < q
    ensures Slots(cpus, start, q)[k] == Wheel(cpus, start + k)
  {
    if k < q - 1 {
      SlotsAt(cpus, start, q - 1, k);
    }
  }

  lemma {:induction false} WheelAt(granted: seq<string>, cpus: seq<string>, q: nat, t: nat)
    requires |cpus| > 0 && granted == Slots(cpus, 0, q)
    ensures |granted| == q && (t < q ==> granted[t] == cpus[t % |cpus|])
  {
    if t < q {
      SlotsAt(cpus, 0, q, t);
      WheelIsModulo(cpus, t);
    }
  }

  lemma {:induction false} SlotsContain(cpus: seq<string>, start: nat, q: nat)
    requires |cpus| > 0
    ensures forall x :: x in Slots(cpus, start, q) ==> x in cpus
  {
    if q > 0 {
      SlotsContain(cpus, start, q - 1);
    }
  }

  lemma {:induction false} SlotsAppend(cpus: seq<string>, start: nat, mid: nat, q: nat, r: nat, total: nat)
    requires |cpus| > 0 && mid == start + q && total == q + r
    ensures Slots(cpus, start, q) + Slots(cpus, mid, r) == Slots(cpus, start, total)
  {
    if r > 0 {
      SlotsAppend(cpus, start, mid, q, r - 1, total - 1);
    }
  }

  function SlotContainer(job: Job, cpus: seq<string>, start: nat, numaNum: int): Container
    requires |cpus| > 0
  {
    Container(job.containerId, job.name, Join(Slots(cpus, start, job.cpus), ','), Itoa(numaNum))
  }

  /** The containers of a Guaranteed pod whose first slot is `start`. */
  function SlotContainers(jobs: seq<Job>, cpus: seq<string>, start: nat, numaNum: int): (r: seq<Container>)
    requires |cpus| > 0
    ensures |r| == |jobs|
  {
    if jobs == [] then []
    else
      var init := jobs[..|jobs| - 1];
      SlotContainers(init, cpus, start, numaNum)
      + [SlotContainer(jobs[|jobs| - 1], cpus, start + Total(init), numaNum)]
  }

  lemma {:induction false} SlotContainersAt(
    jobs: seq<Job>, cpus: seq<string>, start: nat, numaNum: int, m: nat, first: nat)
    requires |cpus| > 0 && m < |jobs| && first == start + Total(jobs[..m])
    ensures SlotContainers(jobs, cpus, start, numaNum)[m] == SlotContainer(jobs[m], cpus, first, numaNum)
  {
    var init := jobs[..|jobs| - 1];
    if m < |init| {
      assert init[..m] == jobs[..m];
      SlotContainersAt(init, cpus, start, numaNum, m, first);
    } else {
      assert jobs[..m] == init;
    }
  }

  /** The containers of any other pod: every one gets all of its NUMA node. */
  function WholeNodeContainers(jobs: seq<Job>, node: Numa): (r: seq<Container>)
    ensures |r| == |jobs|
    ensures forall m :: 0 <= m < |r| ==> r[m] == Container(jobs[m].containerId, "", node.cpuset, node.memset)
  {
    seq(|jobs|, m requires 0 <= m < |jobs| => Container(jobs[m].containerId, "", node.cpuset, node.memset))
  }

  /** Slots one entry takes on a NUMA node. */
  function Taken(pods: seq<PodItem>, e: PodAffinity, numaNum: int): nat {
    if Guaranteed(pods, e) && e.numaNum == numaNum then Total(JobsOf(pods, e)) else 0
  }

  /** Slots the entries of `pa` take there. */
  function HandedOut(pods: seq<PodItem>, pa: seq<PodAffinity>, numaNum: int): nat {
    if pa == [] then 0
    else
      HandedOut(pods, pa[..|pa| - 1], numaNum) + Taken(pods, pa[|pa| - 1], numaNum)
  }

  /** The entry's number indexes the list its branch reads. */
  predicate InRange(pods: seq<PodItem>, nodes: seq<NumaNode>, numa: seq<Numa>, e: PodAffinity) {
    if Guaranteed(pods, e) then 0 <= e.numaNum < |nodes|
    else JobsOf(pods, e) == [] || 0 <= e.numaNum < |numa|
  }

  /** An entry after the update, when the entries `before` were placed before it. */
  function Placed(pods: seq<PodItem>, nodes: seq<NumaNode>, numa: seq<Numa>, before: seq<PodAffinity>,
                  e: PodAffinity): PodAffinity
    requires InRange(pods, nodes, numa, e)
  {
    var jobs := JobsOf(pods, e);
    e.(containers :=
      if Guaranteed(pods, e) then
        SlotContainers(jobs, CpuNames(nodes[e.numaNum]), HandedOut(pods, before, e.numaNum), e.numaNum)
      else if jobs == [] then []
      else WholeNodeContainers(jobs, numa[e.numaNum]))
  }

  predicate AllInRange(pods: seq<PodItem>, nodes: seq<NumaNode>, numa: seq<Numa>, pa: seq<PodAffinity>) {
    pa == [] || (AllInRange(pods, nodes, numa, pa[..|pa| - 1]) && InRange(pods, nodes, numa, pa[|pa| - 1]))
  }

  lemma {:induction false} AllInRangeCharacter(pods: seq<PodItem>, nodes: seq<NumaNode>, numa: seq<Numa>,
                                               pa: seq<PodAffinity>)
    ensures AllInRange(pods, nodes, numa, pa) <==> forall i :: 0 <= i < |pa| ==> InRange(pods, nodes, numa, pa[i])
  {
    if pa != [] {
      AllInRangeCharacter(pods, nodes, numa, pa[..|pa| - 1]);
    }
  }

  function PlacedAll(pods: seq<PodItem>, nodes: seq<NumaNode>, numa: seq<Numa>,
                     pa: seq<PodAffinity>): (r: seq<PodAffinity>)
    requires AllInRange(pods, nodes, numa, pa)
    ensures |r| == |pa|
  {
    if pa == [] then []
    else PlacedAll(pods, nodes, numa, pa[..|pa| - 1]) + [Placed(pods, nodes, numa, pa[..|pa| - 1], pa[|pa| - 1])]
  }

  lemma {:induction false} PlacedAllAt(pods: seq<PodItem>, nodes: seq<NumaNode>, numa: seq<Numa>,
                                       pa: seq<PodAffinity>, i: nat)
    requires AllInRange(pods, nodes, numa, pa) && i < |pa|
    ensures InRange(pods, nodes, numa, pa[i])
    ensures PlacedAll(pods, nodes, numa, pa)[i] == Placed(pods, nodes, numa, pa[..i], pa[i])
  {
    if i < |pa| - 1 {
      PlacedAllAt(pods, nodes, numa, pa[..|pa| - 1], i);
      assert pa[..|pa| - 1][..i] == pa[..i];
    }
  }

  // ---- The loops ----

  /** The cursor of a node on which `handed` slots were taken. */
  ghost predicate CursorAt(idx: nat, handed: nat, cpuset: seq<string>)
    requires |cpuset| > 0
  {
    idx == Cycle(handed, |cpuset|)
  }

  /** Takes q CPUs one by one, advancing the cursor after each. */
  method TakeCpus(cpuset: seq<string>, start: nat, q: nat, ghost handed: nat) returns (cpus: seq<string>, idx: nat)
    requires |cpuset| > 0 && CursorAt(start, handed, cpuset)
    ensures cpus == Slots(cpuset, handed, q) && CursorAt(idx, handed + q, cpuset)
  {
    cpus, idx := [], start;
    for k := 0 to q
      invariant cpus == Slots(cpuset, handed, k) && CursorAt(idx, handed + k, cpuset)
    {
      cpus := cpus + [cpuset[idx]];
      idx := Advance(idx, |cpuset|, handed + k);
    }
  }

  /** The Guaranteed branch for one entry; `handed` is the number of slots taken on this node before. */
  method PlaceGuaranteed(pods: seq<PodItem>, e: PodAffinity, cpuset: seq<string>, start: nat, ghost handed: nat)
    returns (containers: seq<Container>, idx: nat)
    requires |cpuset| > 0 && CursorAt(start, handed, cpuset)
    ensures containers == SlotContainers(JobsOf(pods, e), cpuset, handed, e.numaNum)
    ensures CursorAt(idx, handed + Total(JobsOf(pods, e)), cpuset)
  {
    containers, idx := [], start;
    ghost var jobs: seq<Job> := [];
    for j := 0 to |pods|
      invariant jobs == JobsNamed(pods[..j], e.podName, e.namespace)
      invariant PlacedSoFar(containers, idx, jobs, cpuset, handed, e.numaNum)
    {
      assert pods[..j + 1][..j] == pods[..j];
      if pods[j].name != e.podName || pods[j].namespace != e.namespace {
        continue;
      }
      containers, idx := PlacePod(pods[j], cpuset, e.numaNum, idx, containers, handed, jobs);
      jobs := jobs + PodJobs(pods[j]);
    }
    assert pods[..|pods|] == pods;
  }

  /** `containers` are those of `jobs`, and the cursor has moved past their slots. */
  ghost predicate PlacedSoFar(containers: seq<Container>, idx: nat, jobs: seq<Job>, cpuset: seq<string>, handed: nat,
                              numaNum: int)
    requires |cpuset| > 0
  {
    containers == SlotContainers(jobs, cpuset, handed, numaNum) && CursorAt(idx, handed + Total(jobs), cpuset)
  }

  lemma {:induction false} PlacedOneMore(containers: seq<Container>, idx: nat, jobs: seq<Job>, cpuset: seq<string>,
                                         handed: nat, numaNum: int, before: nat, container: Container, idx': nat)
    requires |cpuset| > 0 && jobs != [] && before == handed + Total(jobs[..|jobs| - 1])
    requires PlacedSoFar(containers, idx, jobs[..|jobs| - 1], cpuset, handed, numaNum)
    requires container == SlotContainer(jobs[|jobs| - 1], cpuset, before, numaNum)
    requires CursorAt(idx', before + jobs[|jobs| - 1].cpus, cpuset)
    ensures PlacedSoFar(containers + [container], idx', jobs, cpuset, handed, numaNum)
  {
  }

  /** Appends one pod's containers; `jobs` are the containers placed before. */
  method PlacePod(p: PodItem, cpuset: seq<string>, numaNum: int, start: nat, sofar: seq<Container>,
                  ghost handed: nat, ghost jobs: seq<Job>)
    returns (containers: seq<Container>, idx: nat)
    requires |cpuset| > 0 && PlacedSoFar(sofar, start, jobs, cpuset, handed, numaNum)
    ensures PlacedSoFar(containers, idx, jobs + PodJobs(p), cpuset, handed, numaNum)
  {
    containers, idx := sofar, start;
    assert jobs + PodJobsTo(p, 0) == jobs;
    for c := 0 to |p.containers|
      invariant PlacedSoFar(containers, idx, jobs + PodJobsTo(p, c), cpuset, handed, numaNum)
    {
      containers, idx := PlaceNext(p, c, cpuset, numaNum, idx, containers, handed, jobs);
    }
  }

  /** Appends the pod's c-th container. */
  method PlaceNext(p: PodItem, c: nat, cpuset: seq<string>, numaNum: int, start: nat, sofar: seq<Container>,
                   ghost handed: nat, ghost jobs: seq<Job>)
    returns (containers: seq<Container>, idx: nat)
    requires |cpuset| > 0 && c < |p.containers|
    requires PlacedSoFar(sofar, start, jobs + PodJobsTo(p, c), cpuset, handed, numaNum)
    ensures PlacedSoFar(containers, idx, jobs + PodJobsTo(p, c + 1), cpuset, handed, numaNum)
  {
    ghost var done, more := jobs + PodJobsTo(p, c), jobs + PodJobsTo(p, c + 1);
    assert more[..|more| - 1] == done && more[|more| - 1] == JobOf(p, c);
    var container;
    container, idx := PlaceContainer(p, c, cpuset, numaNum, start, handed + Total(done));
    PlacedOneMore(sofar, start, more, cpuset, handed, numaNum, handed + Total(done), container, idx);
    containers := sofar + [container];
  }

  method PlaceContainer(p: PodItem, c: nat, cpuset: seq<string>, numaNum: int, start: nat, ghost handed: nat)
    returns (container: Container, idx: nat)
    requires |cpuset| > 0 && c < |p.containers| && CursorAt(start, handed, cpuset)
    ensures container == SlotContainer(JobOf(p, c), cpuset, handed, numaNum)
    ensures CursorAt(idx, handed + JobOf(p, c).cpus, cpuset)
  {
    var spec := p.containers[c];
    var cpus;
    cpus, idx := TakeCpus(cpuset, start, spec.cpuRequest, handed);
    var id := FindContainerId(p.statuses, spec.name);
    container := Container(id, spec.name, Join(cpus, ','), Itoa(numaNum));
  }

  /** The other branch for one entry; it fails only when a container is found and the number is out of range. */
  method PlaceWholeNode(pods: seq<PodItem>, e: PodAffinity, numa: seq<Numa>)
    returns (ok: bool, containers: seq<Container>)
    ensures ok <==> JobsOf(pods, e) == [] || 0 <= e.numaNum < |numa|
    ensures ok ==> containers == if JobsOf(pods, e)
            == [] then [] else WholeNodeContainers(JobsOf(pods, e), numa[e.numaNum])
  {
    ok, containers := true, [];
    for j := 0 to |pods|
      invariant WholeNodeSoFar(JobsNamed(pods[..j], e.podName, e.namespace), e.numaNum, numa, containers)
    {
      ghost var jobs := JobsNamed(pods[..j], e.podName, e.namespace);
      assert pods[..j + 1][..j] == pods[..j];
      if pods[j].name != e.podName || pods[j].namespace != e.namespace {
        continue;
      }
      var p := pods[j];
      assert jobs + PodJobsTo(p, 0) == jobs;
      for c := 0 to |p.containers|
        invariant WholeNodeSoFar(jobs + PodJobsTo(p, c), e.numaNum, numa, containers)
      {
        if e.numaNum < 0 || e.numaNum >= |numa| {
          JobsNamedGrows(pods, j + 1, e.podName, e.namespace);
          return false, [];
        }
        var id := FindContainerId(p.statuses, p.containers[c].name);
        containers := containers + [Container(id, "", numa[e.numaNum].cpuset, numa[e.numaNum].memset)];
        assert jobs + PodJobsTo(p, c + 1) == jobs + PodJobsTo(p, c) + [JobOf(p, c)];
      }
    }
    assert pods[..|pods|] == pods;
    return true, containers;
  }

  ghost predicate WholeNodeSoFar(jobs: seq<Job>, numaNum: int, numa: seq<Numa>, containers: seq<Container>) {
    if jobs == [] then containers == []
    else 0 <= numaNum < |numa| && containers == WholeNodeContainers(jobs, numa[numaNum])
  }

  lemma {:induction false} JobsNamedGrows(pods: seq<PodItem>, j: nat, name: string, namespace: string)
    requires j <= |pods|
    ensures |JobsNamed(pods[..j], name, namespace)| <= |JobsNamed(pods, name, namespace)|
  {
    if j == |pods| {
      assert pods[..j] == pods;
    } else {
      assert pods[..|pods| - 1][..j] == pods[..j];
      JobsNamedGrows(pods[..|pods| - 1], j, name, namespace);
    }
  }

  method QosByName(pods: seq<PodItem>) returns (mps: map<string, string>)
    ensures QosTable(mps, pods)
  {
    mps := map[];
    for i := 0 to |pods|
      invariant QosTable(mps, pods[..i])
    {
      assert pods[..i + 1][..i] == pods[..i];
      mps := mps[pods[i].name := pods[i].qosClass];
    }
    assert pods[..|pods|] == pods;
  }

  /** Each node's cursor is the number of slots handed out there, modulo its CPU count. */
  ghost predicate CursorsAt(cursors: map<int, nat>, pods: seq<PodItem>, nodes: seq<NumaNode>, done: seq<PodAffinity>) {
    forall n :: 0 <= n < |nodes| ==>
      CursorAt(CursorOf(cursors, n), HandedOut(pods, done, n), CpuNames(nodes[n]))
  }

  lemma {:induction false} HandedOutStep(pods: seq<PodItem>, done: seq<PodAffinity>, e: PodAffinity, n: int)
    ensures HandedOut(pods, done + [e], n) == HandedOut(pods, done, n) + Taken(pods, e, n)
  {
    assert (done + [e])[..|done|] == done;
  }

  /** Each entry of a Guaranteed pod on the node adds the requests of its pod's containers, any other adds nothing. */
  lemma {:induction false} HandedOutAddsUp(pods: seq<PodItem>, done: seq<PodAffinity>, e: PodAffinity, n: int)
    ensures HandedOut(pods, [], n) == 0
    ensures HandedOut(pods, done + [e], n)
            == HandedOut(pods, done, n)
               + if QosOf(pods, e.podName) == "Guaranteed" && e.numaNum == n
                 then Total(JobsNamed(pods, e.podName, e.namespace)) else 0
  {
    HandedOutStep(pods, done, e, n);
  }

  /** Node n's cursor as the map gives it; a node not in the map starts at 0. */
  function CursorOf(cursors: map<int, nat>, n: int): nat {
    if n in cursors then cursors[n] else 0
  }

  /** An entry that takes no slot of a node leaves its cursor right. */
  lemma {:induction false} CursorStays(cursor: nat, pods: seq<PodItem>, cpuset: seq<string>,
                                       done: seq<PodAffinity>, e: PodAffinity, n: int)
    requires |cpuset| > 0 && CursorAt(cursor, HandedOut(pods, done, n), cpuset) && Taken(pods, e, n) == 0
    ensures CursorAt(cursor, HandedOut(pods, done + [e], n), cpuset)
  {
    HandedOutStep(pods, done, e, n);
  }

  lemma {:induction false} CursorsStay(cursors: map<int, nat>, pods: seq<PodItem>, nodes: seq<NumaNode>,
                                       done: seq<PodAffinity>, e: PodAffinity)
    requires CursorsAt(cursors, pods, nodes, done) && !Guaranteed(pods, e)
    ensures CursorsAt(cursors, pods, nodes, done + [e])
  {
    forall n | 0 <= n < |nodes|
      ensures CursorAt(CursorOf(cursors, n), HandedOut(pods, done + [e], n), CpuNames(nodes[n]))
    {
      CursorStays(CursorOf(cursors, n), pods, CpuNames(nodes[n]), done, e, n);
    }
  }

  /** A Guaranteed entry moves its own node's cursor only. */
  lemma {:induction false} CursorsMove(cursors: map<int, nat>, pods: seq<PodItem>, nodes: seq<NumaNode>,
                                       done: seq<PodAffinity>, e: PodAffinity, idx: nat)
    requires CursorsAt(cursors, pods, nodes, done) && Guaranteed(pods, e) && 0 <= e.numaNum < |nodes|
    requires CursorAt(idx, HandedOut(pods, done, e.numaNum) + Total(JobsOf(pods, e)), CpuNames(nodes[e.numaNum]))
    ensures CursorsAt(cursors[e.numaNum := idx], pods, nodes, done + [e])
  {
    var moved := cursors[e.numaNum := idx];
    forall n | 0 <= n < |nodes|
      ensures CursorAt(CursorOf(moved, n), HandedOut(pods, done + [e], n), CpuNames(nodes[n]))
    {
      if n == e.numaNum {
        HandedOutStep(pods, done, e, n);
      } else {
        CursorStays(CursorOf(cursors, n), pods, CpuNames(nodes[n]), done, e, n);
      }
    }
  }

  /** The first i entries are placed, the others are as they were, and the cursors follow. */
  ghost predicate Progress(pods: seq<PodItem>, nodes: seq<NumaNode>, numa: seq<Numa>, pa: seq<PodAffinity>, i: nat,
                           now: seq<PodAffinity>, cursors: map<int, nat>) {
    && i <= |pa| == |now|
    && AllInRange(pods, nodes, numa, pa[..i]) && now == PlacedAll(pods, nodes, numa, pa[..i]) + pa[i..]
    && CursorsAt(cursors, pods, nodes, pa[..i])
  }

  lemma {:induction false} PlacedOneMoreEntry(
    pods: seq<PodItem>, nodes: seq<NumaNode>, numa: seq<Numa>, done: seq<PodAffinity>, e: PodAffinity)
    requires AllInRange(pods, nodes, numa, done) && InRange(pods, nodes, numa, e)
    ensures AllInRange(pods, nodes, numa, done + [e])
    ensures PlacedAll(pods, nodes, numa, done + [e])
            == PlacedAll(pods, nodes, numa, done) + [Placed(pods, nodes, numa, done, e)]
  {
    assert (done + [e])[..|done|] == done;
  }

  lemma {:induction false} ReplaceNext(now: seq<PodAffinity>, done: seq<PodAffinity>, rest: seq<PodAffinity>,
                                       e: PodAffinity)
    requires now == done + rest && rest != []
    ensures now[|done| := e] == (done + [e]) + rest[1..]
  {
  }

  lemma {:induction false} ProgressStep(
    pods: seq<PodItem>, nodes: seq<NumaNode>, numa: seq<Numa>, pa: seq<PodAffinity>, i: nat,
    now: seq<PodAffinity>, cursors: map<int, nat>, e: PodAffinity, cursors': map<int, nat>)
    requires i < |pa| && Progress(pods, nodes, numa, pa, i, now, cursors) && InRange(pods, nodes, numa, pa[i])
    requires e == Placed(pods, nodes, numa, pa[..i], pa[i]) && CursorsAt(cursors', pods, nodes, pa[..i] + [pa[i]])
    ensures Progress(pods, nodes, numa, pa, i + 1, now[i := e], cursors')
  {
    PlacedOneMoreEntry(pods, nodes, numa, pa[..i], pa[i]);
    ReplaceNext(now, PlacedAll(pods, nodes, numa, pa[..i]), pa[i..], e);
    assert pa[..i + 1] == pa[..i] + [pa[i]] && pa[i..][1..] == pa[i + 1..];
  }

  lemma {:induction false} ProgressStart(pods: seq<PodItem>, nodes: seq<NumaNode>, numa: seq<Numa>,
                                         pa: seq<PodAffinity>)
    ensures Progress(pods, nodes, numa, pa, 0, pa, map[])
  {
    assert pa[..0] == [] && pa[0..] == pa;
  }

  /** What the loop sees at its i-th round. */
  lemma {:induction false} ProgressAt(
    pods: seq<PodItem>, nodes: seq<NumaNode>, numa: seq<Numa>, pa: seq<PodAffinity>, i: nat,
    now: seq<PodAffinity>, cursors: map<int, nat>)
    requires i < |pa| && Progress(pods, nodes, numa, pa, i, now, cursors)
    ensures now[i] == pa[i] && CursorsAt(cursors, pods, nodes, pa[..i]) && pa[..i] + [pa[i]] == pa[..i + 1]
  {
  }

  lemma {:induction false} ProgressEnd(
    pods: seq<PodItem>, nodes: seq<NumaNode>, numa: seq<Numa>, pa: seq<PodAffinity>, i: nat,
    now: seq<PodAffinity>, cursors: map<int, nat>)
    requires i >= |pa| && Progress(pods, nodes, numa, pa, i, now, cursors)
    ensures AllInRange(pods, nodes, numa, pa) && now == PlacedAll(pods, nodes, numa, pa)
  {
    assert pa[..i] == pa && pa[i..] == [];
  }

  lemma {:induction false} OneOutOfRange(pods: seq<PodItem>, nodes: seq<NumaNode>, numa: seq<Numa>,
                                         pa: seq<PodAffinity>, i: nat)
    requires i < |pa| && !InRange(pods, nodes, numa, pa[i])
    ensures !AllInRange(pods, nodes, numa, pa)
  {
    AllInRangeCharacter(pods, nodes, numa, pa);
  }

  ghost predicate QosTable(mps: map<string, string>, pods: seq<PodItem>) {
    forall name :: QosOf(pods, name) == if name in mps then mps[name] else ""
  }

  /** One entry; `done` are the entries placed before it. */
  method PlaceEntry(pods: seq<PodItem>, nodes: seq<NumaNode>, numa: seq<Numa>, mps: map<string, string>,
                    cursors: map<int, nat>, e: PodAffinity, ghost done: seq<PodAffinity>)
    returns (ok: bool, placed: PodAffinity, cursors': map<int, nat>)
    requires QosTable(mps, pods) && CursorsAt(cursors, pods, nodes, done)
    ensures ok <==> InRange(pods, nodes, numa, e)
    ensures ok ==> CursorsAt(cursors', pods, nodes, done + [e]) && placed == Placed(pods, nodes, numa, done, e)
  {
    placed, cursors' := e, cursors;
    var qos := if e.podName in mps then mps[e.podName] else "";
    if qos != GUARANTEED {
      var whole;
      ok, whole := PlaceWholeNode(pods, e, numa);
      placed := e.(containers := whole);
      CursorsStay(cursors, pods, nodes, done, e);
    } else if e.numaNum < 0 || e.numaNum >= |nodes| {
      ok := false;
    } else {
      var cpuset := Split(nodes[e.numaNum].cpuset, ',');
      var start := if e.numaNum in cursors then cursors[e.numaNum] else 0;
      var cs, idx := PlaceGuaranteed(pods, e, cpuset, start, HandedOut(pods, done, e.numaNum));
      CursorsMove(cursors, pods, nodes, done, e, idx);
      ok, placed, cursors' := true, e.(containers := cs), cursors[e.numaNum := idx];
    }
  }

  /** One round of the loop: places the i-th entry; not ok means an index out of range. */
  method PlaceNextEntry(node: Node, pods: seq<PodItem>, nodes: seq<NumaNode>, mps: map<string, string>,
                        cursors: map<int, nat>, i: nat, ghost pa: seq<PodAffinity>)
    returns (ok: bool, cursors': map<int, nat>)
    requires QosTable(mps, pods) && i < |pa| == |node.podAffinity|
    requires Progress(pods, nodes, node.numa, pa, i, node.podAffinity, cursors)
    modifies node`podAffinity
    ensures !ok ==> !AllInRange(pods, nodes, node.numa, pa)
    ensures ok ==> Progress(pods, nodes, node.numa, pa, i + 1, node.podAffinity, cursors')
  {
    ghost var now := node.podAffinity;
    ProgressAt(pods, nodes, node.numa, pa, i, now, cursors);
    var placed;
    ok, placed, cursors' := PlaceEntry(pods, nodes, node.numa, mps, cursors, node.podAffinity[i], pa[..i]);
    if !ok {
      OneOutOfRange(pods, nodes, node.numa, pa, i);
      return;
    }
    ProgressStep(pods, nodes, node.numa, pa, i, now, cursors, placed, cursors');
    node.podAffinity := node.podAffinity[i := placed];
  }

  /** Places every entry in list order; not ok means the process stopped on an index out of range. */
  method UpdateContainers(node: Node, pods: seq<PodItem>, nodes: seq<NumaNode>) returns (ok: bool)
    modifies node`podAffinity
    ensures ok <==> AllInRange(pods, nodes, node.numa, old(node.podAffinity))
    ensures ok ==> node.podAffinity == PlacedAll(pods, nodes, node.numa, old(node.podAffinity))
  {
    var mps := QosByName(pods);
    var cpuAllocIdx: map<int, nat> := map[];
    ghost var pa := node.podAffinity;
    ok := true;
    var i := 0;
    ProgressStart(pods, nodes, node.numa, pa);
    while i < |node.podAffinity|
      invariant ok && Progress(pods, nodes, node.numa, pa, i, node.podAffinity, cpuAllocIdx)
      decreases |pa| - i
    {
      ok, cpuAllocIdx := PlaceNextEntry(node, pods, nodes, mps, cpuAllocIdx, i, pa);
      if !ok {
        return;
      }
      i := i + 1;
    }
    ProgressEnd(pods, nodes, node.numa, pa, i, node.podAffinity, cpuAllocIdx);
  }

  // ---- What the CR then says, read back from its texts ----

  /** The cpusets of all containers of the Guaranteed entries on one NUMA node, in order. */
  function Granted(pods: seq<PodItem>, pa: seq<PodAffinity>, numaNum: int): seq<seq<string>> {
    if pa == [] then []
    else
      var e := pa[|pa| - 1];
      Granted(pods, pa[..|pa| - 1], numaNum)
      + if Guaranteed(pods, e) && e.numaNum == numaNum then UsedByEach(e.containers) else []
  }

  /** A container's text names exactly its slots, but a single empty name reads as none. */
  lemma {:induction false} UsedCpusOfSlots(cpus: seq<string>, start: nat, job: Job, numaNum: int)
    requires |cpus| > 0 && AllAvoid(cpus, ',')
    ensures UsedCpus(SlotContainer(job, cpus, start, numaNum))
            == if Slots(cpus, start, job.cpus) == [""] then [] else Slots(cpus, start, job.cpus)
  {
    SlotsContain(cpus, start, job.cpus);
    UsedCpusReadBack(Slots(cpus, start, job.cpus), job.containerId, job.name, Itoa(numaNum));
  }

  lemma {:induction false} UsedCpusOfRealSlots(cpus: seq<string>, start: nat, job: Job, numaNum: int)
    requires RealNames(cpus)
    ensures UsedCpus(SlotContainer(job, cpus, start, numaNum)) == Slots(cpus, start, job.cpus)
  {
    SlotsContain(cpus, start, job.cpus);
    RealAvoidsComma(cpus);
    AllRealSubset(Slots(cpus, start, job.cpus), cpus);
    RealAvoidsComma(Slots(cpus, start, job.cpus));
    UsedCpusOfSlots(cpus, start, job, numaNum);
  }

  lemma {:induction false} UsedByPod(jobs: seq<Job>, cpus: seq<string>, start: nat, numaNum: int)
    requires RealNames(cpus)
    ensures Concat(UsedByEach(SlotContainers(jobs, cpus, start, numaNum))) == Slots(cpus, start, Total(jobs))
  {
    if jobs == [] {
      assert UsedByEach([]) == [];
    } else {
      UsedByPod(jobs[..|jobs| - 1], cpus, start, numaNum);
      UsedByPodStep(jobs, cpus, start, numaNum);
    }
  }

  lemma {:induction false} UsedByPodStep(jobs: seq<Job>, cpus: seq<string>, start: nat, numaNum: int)
    requires RealNames(cpus) && jobs != []
    requires var init := jobs[..|jobs| - 1];
             Concat(UsedByEach(SlotContainers(init, cpus, start, numaNum))) == Slots(cpus, start, Total(init))
    ensures Concat(UsedByEach(SlotContainers(jobs, cpus, start, numaNum))) == Slots(cpus, start, Total(jobs))
  {
    var init, job := jobs[..|jobs| - 1], jobs[|jobs| - 1];
    var cs, first := SlotContainers(init, cpus, start, numaNum), start + Total(init);
    assert SlotContainers(jobs, cpus, start, numaNum) == cs + [SlotContainer(job, cpus, first, numaNum)];
    UsedByOneMore(cs, job, cpus, start, Total(init), first, Total(jobs), numaNum);
  }

  lemma {:induction false} UsedByOneMore(cs: seq<Container>, job: Job, cpus: seq<string>, start: nat, q: nat,
                                         first: nat, total: nat, numaNum: int)
    requires RealNames(cpus) && first == start + q && total == q + job.cpus
    requires Concat(UsedByEach(cs)) == Slots(cpus, start, q)
    ensures Concat(UsedByEach(cs + [SlotContainer(job, cpus, first, numaNum)])) == Slots(cpus, start, total)
  {
    UsedCpusOfRealSlots(cpus, first, job, numaNum);
    SlotsAppend(cpus, start, first, q, job.cpus, total);
    UsedByEachStep(cs, SlotContainer(job, cpus, first, numaNum),
                   Slots(cpus, start, q), Slots(cpus, first, job.cpus), Slots(cpus, start, total));
  }

  lemma {:induction false} PlacedGuaranteed(pods: seq<PodItem>, nodes: seq<NumaNode>, numa: seq<Numa>,
                                            before: seq<PodAffinity>, e: PodAffinity)
    requires InRange(pods, nodes, numa, e) && Guaranteed(pods, e)
    ensures var placed, n := Placed(pods, nodes, numa, before, e), e.numaNum;
            && Guaranteed(pods, placed) && placed.numaNum == n
            && placed.containers
               == SlotContainers(JobsOf(pods, e), CpuNames(nodes[n]), HandedOut(pods, before, n), n)
  {
  }

  /**
   All CPUs granted on a node, in order, are an initial stretch of the wheel: nothing skipped, nothing repeated early.
   */
  lemma {:induction false} GrantsTurnTheWheel(
    pods: seq<PodItem>, nodes: seq<NumaNode>, numa: seq<Numa>, pa: seq<PodAffinity>, n: nat)
    requires AllInRange(pods, nodes, numa, pa) && n < |nodes| && RealNames(CpuNames(nodes[n]))
    ensures Concat(Granted(pods, PlacedAll(pods, nodes, numa, pa), n))
            == Slots(CpuNames(nodes[n]), 0, HandedOut(pods, pa, n))
  {
    if pa == [] {
      assert Granted(pods, [], n) == [];
    } else {
      var init, e := pa[..|pa| - 1], pa[|pa| - 1];
      var out, placed := PlacedAll(pods, nodes, numa, init), Placed(pods, nodes, numa, init, e);
      GrantsTurnTheWheel(pods, nodes, numa, init, n);
      GrantsStep(pods, nodes, numa, init, e, n, out, placed, HandedOut(pods, pa, n));
      assert PlacedAll(pods, nodes, numa, pa) == out + [placed];
    }
  }

  /** The t-th CPU granted on a node is its t-th, counted round and round, and there are as many as were asked for. */
  lemma {:induction false} GrantedAt(
    pods: seq<PodItem>, nodes: seq<NumaNode>, numa: seq<Numa>, pa: seq<PodAffinity>, n: nat, t: nat)
    requires AllInRange(pods, nodes, numa, pa) && n < |nodes| && RealNames(CpuNames(nodes[n]))
    ensures var granted := Concat(Granted(pods, PlacedAll(pods, nodes, numa, pa), n));
            && |granted| == HandedOut(pods, pa, n)
            && (t < HandedOut(pods, pa, n) ==> granted[t] == CpuNames(nodes[n])[t % |CpuNames(nodes[n])|])
  {
    GrantsTurnTheWheel(pods, nodes, numa, pa, n);
    WheelAt(Concat(Granted(pods, PlacedAll(pods, nodes, numa, pa), n)), CpuNames(nodes[n]), HandedOut(pods, pa, n), t);
  }

  /** What placing keeps of an entry. */
  lemma {:induction false} PlacedFields(pods: seq<PodItem>, nodes: seq<NumaNode>, numa: seq<Numa>,
                                        before: seq<PodAffinity>, e: PodAffinity)
    requires InRange(pods, nodes, numa, e)
    ensures Placed(pods, nodes, numa, before, e).podName == e.podName
    ensures Placed(pods, nodes, numa, before, e).numaNum == e.numaNum
  {
  }

  lemma {:induction false} GrantsStep(
    pods: seq<PodItem>, nodes: seq<NumaNode>, numa: seq<Numa>, init: seq<PodAffinity>, e: PodAffinity, n: nat,
    out: seq<PodAffinity>, placed: PodAffinity, after: nat)
    requires InRange(pods, nodes, numa, e) && n < |nodes| && RealNames(CpuNames(nodes[n]))
    requires placed == Placed(pods, nodes, numa, init, e)
    requires Concat(Granted(pods, out, n)) == Slots(CpuNames(nodes[n]), 0, HandedOut(pods, init, n))
    requires after == HandedOut(pods, init, n) + Taken(pods, e, n)
    ensures Concat(Granted(pods, out + [placed], n)) == Slots(CpuNames(nodes[n]), 0, after)
  {
    var handed := HandedOut(pods, init, n);
    PlacedFields(pods, nodes, numa, init, e);
    if Guaranteed(pods, e) && e.numaNum == n {
      PlacedGuaranteed(pods, nodes, numa, init, e);
      GrantedMore(pods, out, placed, JobsOf(pods, e), CpuNames(nodes[n]), handed, after, n);
    } else {
      assert after == handed;
      GrantedElsewhere(pods, out, placed, n);
    }
  }

  lemma {:induction false} GrantedMore(pods: seq<PodItem>, out: seq<PodAffinity>, e: PodAffinity, jobs: seq<Job>,
                                       cpus: seq<string>, handed: nat, after: nat, n: nat)
    requires RealNames(cpus) && Concat(Granted(pods, out, n)) == Slots(cpus, 0, handed)
    requires after == handed + Total(jobs)
    requires Guaranteed(pods, e) && e.numaNum == n && e.containers == SlotContainers(jobs, cpus, handed, n)
    ensures Concat(Granted(pods, out + [e], n)) == Slots(cpus, 0, after)
  {
    assert (out + [e])[..|out|] == out;
    ConcatSplit(Granted(pods, out, n), UsedByEach(e.containers));
    UsedByPod(jobs, cpus, handed, n);
    SlotsAppend(cpus, 0, handed, handed, Total(jobs), after);
  }

  lemma {:induction false} GrantedElsewhere(pods: seq<PodItem>, out: seq<PodAffinity>, e: PodAffinity, n: nat)
    requires !(Guaranteed(pods, e) && e.numaNum == n)
    ensures Granted(pods, out + [e], n) == Granted(pods, out, n)
  {
    assert (out + [e])[..|out|] == out;
  }

  // ---- Fairness and exclusiveness ----

  lemma {:induction false} SlotCounts(cpus: seq<string>, ticks: nat, a: nat)
    requires Distinct(cpus) && a < |cpus|
    ensures multiset(Slots(cpus, 0, ticks))[cpus[a]] == Hits(ticks, |cpus|, a)
  {
    if ticks > 0 {
      var s := Slots(cpus, 0, ticks);
      SlotCounts(cpus, ticks - 1, a);
      assert s == Slots(cpus, 0, ticks - 1) + [cpus[Cycle(ticks - 1, |cpus|)]];
    }
  }

  /** Any two CPUs of a node are granted equally often, up to one. */
  lemma {:induction false} GrantsAreBalanced(
    pods: seq<PodItem>, nodes: seq<NumaNode>, numa: seq<Numa>, pa: seq<PodAffinity>, n: nat, x: string, y: string)
    requires AllInRange(pods, nodes, numa, pa) && n < |nodes|
    requires RealNames(CpuNames(nodes[n])) && Distinct(CpuNames(nodes[n]))
    requires x in CpuNames(nodes[n]) && y in CpuNames(nodes[n])
    ensures var granted := multiset(Concat(Granted(pods, PlacedAll(pods, nodes, numa, pa), n)));
            granted[x] <= granted[y] + 1 && granted[y] <= granted[x] + 1
  {
    var cpus := CpuNames(nodes[n]);
    var a :| 0 <= a < |cpus| && cpus[a] == x;
    var b :| 0 <= b < |cpus| && cpus[b] == y;
    GrantsTurnTheWheel(pods, nodes, numa, pa, n);
    SlotCounts(cpus, HandedOut(pods, pa, n), a);
    SlotCounts(cpus, HandedOut(pods, pa, n), b);
    Balanced(HandedOut(pods, pa, n), |cpus|, a, b);
  }

  lemma {:induction false} SlotsDistinctExactly(cpus: seq<string>, start: nat, q: nat)
    requires |cpus| > 0 && Distinct(cpus)
    ensures Distinct(Slots(cpus, start, q)) <==> q <= |cpus|
  {
    var s := Slots(cpus, start, q);
    var n := |cpus|;
    if q > n {
      assert Cycle(start + n, n) == Cycle(start, n);
      SlotsAt(cpus, start, q, 0);
      SlotsAt(cpus, start, q, n);
    } else {
      forall i, j | 0 <= i < j < q
        ensures s[i] != s[j]
      {
        SlotsAt(cpus, start, q, i);
        SlotsAt(cpus, start, q, j);
        WindowIsInjective(start + i, start + j, n);
      }
    }
  }

  /** No CPU of a node is granted twice, within a container or across them, exactly when the requests fit the node. */
  lemma {:induction false} GrantsExclusiveExactly(
    pods: seq<PodItem>, nodes: seq<NumaNode>, numa: seq<Numa>, pa: seq<PodAffinity>, n: nat)
    requires AllInRange(pods, nodes, numa, pa) && n < |nodes|
    requires RealNames(CpuNames(nodes[n])) && Distinct(CpuNames(nodes[n]))
    ensures var granted := Granted(pods, PlacedAll(pods, nodes, numa, pa), n);
            (forall c :: 0 <= c < |granted| ==> Distinct(granted[c])) && PairwiseDisjoint(granted)
            <==> HandedOut(pods, pa, n) <= |CpuNames(nodes[n])|
  {
    GrantsTurnTheWheel(pods, nodes, numa, pa, n);
    DistinctConcat(Granted(pods, PlacedAll(pods, nodes, numa, pa), n));
    SlotsDistinctExactly(CpuNames(nodes[n]), 0, HandedOut(pods, pa, n));
  }

  /** The slots taken on the entry's node before its m-th container. */
  function FirstSlot(pods: seq<PodItem>, pa: seq<PodAffinity>, i: nat, m: nat): nat
    requires i < |pa| && m < |JobsOf(pods, pa[i])|
  {
    HandedOut(pods, pa[..i], pa[i].numaNum) + Total(JobsOf(pods, pa[i])[..m])
  }

  /** The m-th container of the i-th entry is that of its job on the slots after those taken before. */
  lemma {:induction false} GuaranteedContainer(
    pods: seq<PodItem>, nodes: seq<NumaNode>, numa: seq<Numa>, pa: seq<PodAffinity>, i: nat, m: nat)
    returns (first: nat)
    requires i < |pa| && InRange(pods, nodes, numa, pa[i]) && Guaranteed(pods, pa[i]) && m < |JobsOf(pods, pa[i])|
    ensures first == FirstSlot(pods, pa, i, m)
    ensures Placed(pods, nodes, numa, pa[..i], pa[i]).containers[m]
            == SlotContainer(JobsOf(pods, pa[i])[m], CpuNames(nodes[pa[i].numaNum]), first, pa[i].numaNum)
  {
    first := FirstSlot(pods, pa, i, m);
    var handed := HandedOut(pods, pa[..i], pa[i].numaNum);
    SlotContainersAt(JobsOf(pods, pa[i]), CpuNames(nodes[pa[i].numaNum]), handed, pa[i].numaNum, m, first);
  }

  lemma {:induction false} OneSlot(cpus: seq<string>, start: nat, q: nat)
    requires |cpus| > 0
    ensures Slots(cpus, start, q) == [""] <==> q == 1 && Wheel(cpus, start) == ""
  {
    if q == 1 {
      assert Slots(cpus, start, q) == [Wheel(cpus, start)];
    }
  }

  /**
   One container: it gets as many CPUs as it asked for unless it asked for one and its slot has an empty name, and
   none twice exactly when the node has that many.
   */
  lemma {:induction false} ContainerGetsWhatItAsked(
    pods: seq<PodItem>, nodes: seq<NumaNode>, numa: seq<Numa>, pa: seq<PodAffinity>, i: nat, m: nat)
    requires i < |pa| && InRange(pods, nodes, numa, pa[i]) && Guaranteed(pods, pa[i]) && m < |JobsOf(pods, pa[i])|
    requires Distinct(CpuNames(nodes[pa[i].numaNum]))
    ensures var c := Placed(pods, nodes, numa, pa[..i], pa[i]).containers[m];
            var job := JobsOf(pods, pa[i])[m];
            var cpus := CpuNames(nodes[pa[i].numaNum]);
            && c.name == job.name && c.containerId == job.containerId
            && (|UsedCpus(c)| == job.cpus <==> !(job.cpus == 1 && Wheel(cpus, FirstSlot(pods, pa, i, m)) == ""))
            && (Distinct(UsedCpus(c)) <==> job.cpus <= |cpus|)
  {
    var cpus, job := CpuNames(nodes[pa[i].numaNum]), JobsOf(pods, pa[i])[m];
    var first := GuaranteedContainer(pods, nodes, numa, pa, i, m);
    SplitAvoids(nodes[pa[i].numaNum].cpuset, ',');
    UsedCpusOfSlots(cpus, first, job, pa[i].numaNum);
    SlotsDistinctExactly(cpus, first, job.cpus);
    OneSlot(cpus, first, job.cpus);
  }

  /** The k-th of these CPUs, if there are that many, is that of the wheel's slot first + k. */
  ghost predicate OnSlot(used: seq<string>, cpus: seq<string>, first: nat, k: nat)
    requires |cpus| > 0
  {
    k < |used| ==> used[k] == Wheel(cpus, first + k)
  }

  lemma {:induction false} UsedOnSlot(job: Job, node: NumaNode, first: nat, n: int, k: nat)
    ensures OnSlot(UsedCpus(SlotContainer(job, CpuNames(node), first, n)), CpuNames(node), first, k)
  {
    SplitAvoids(node.cpuset, ',');
    UsedCpusOfSlots(CpuNames(node), first, job, n);
    if k < job.cpus {
      SlotsAt(CpuNames(node), first, job.cpus, k);
    }
  }

  /** Its k-th CPU is the one on the k-th slot after those taken before it. */
  lemma {:induction false} ContainerCpuAt(
    pods: seq<PodItem>, nodes: seq<NumaNode>, numa: seq<Numa>, pa: seq<PodAffinity>, i: nat, m: nat, k: nat)
    requires i < |pa| && InRange(pods, nodes, numa, pa[i]) && Guaranteed(pods, pa[i]) && m < |JobsOf(pods, pa[i])|
    ensures var used := UsedCpus(Placed(pods, nodes, numa, pa[..i], pa[i]).containers[m]);
            var before := HandedOut(pods, pa[..i], pa[i].numaNum) + Total(JobsOf(pods, pa[i])[..m]);
            OnSlot(used, CpuNames(nodes[pa[i].numaNum]), before, k)
  {
    var first := GuaranteedContainer(pods, nodes, numa, pa, i, m);
    UsedOnSlot(JobsOf(pods, pa[i])[m], nodes[pa[i].numaNum], first, pa[i].numaNum, k);
  }

  // ---- Locality ----

  /** The CR's node list repeats what the server reported. */
  ghost predicate Mirrors(numa: seq<Numa>, nodes: seq<NumaNode>) {
    && |numa| == |nodes|
    && forall n :: 0 <= n < |nodes| ==>
         numa[n] == Numa(n, nodes[n].cpuset, nodes[n].memset) && nodes[n].memset == Itoa(n)
  }

  /** A container on node n: its memory node is n and its CPUs are CPUs of n. */
  ghost predicate LocalTo(c: Container, node: NumaNode, n: int) {
    c.memset == Itoa(n) && forall x :: x in UsedCpus(c) ==> x in CpuNames(node)
  }

  lemma {:induction false} SlotContainerIsLocal(job: Job, node: NumaNode, first: nat, n: int)
    ensures LocalTo(SlotContainer(job, CpuNames(node), first, n), node, n)
  {
    SplitAvoids(node.cpuset, ',');
    UsedCpusOfSlots(CpuNames(node), first, job, n);
    SlotsContain(CpuNames(node), first, job.cpus);
  }

  /** In both branches, and whatever the node's text is, every container is local to its entry's NUMA node. */
  lemma {:induction false} ContainersAreLocal(
    pods: seq<PodItem>, nodes: seq<NumaNode>, numa: seq<Numa>, pa: seq<PodAffinity>, i: nat, m: nat)
    requires i < |pa| && InRange(pods, nodes, numa, pa[i]) && Mirrors(numa, nodes)
    requires m < |Placed(pods, nodes, numa, pa[..i], pa[i]).containers|
    ensures 0 <= pa[i].numaNum < |nodes|
    ensures LocalTo(Placed(pods, nodes, numa, pa[..i], pa[i]).containers[m], nodes[pa[i].numaNum], pa[i].numaNum)
  {
    if Guaranteed(pods, pa[i]) {
      var first := GuaranteedContainer(pods, nodes, numa, pa, i, m);
      SlotContainerIsLocal(JobsOf(pods, pa[i])[m], nodes[pa[i].numaNum], first, pa[i].numaNum);
    }
  }
}
