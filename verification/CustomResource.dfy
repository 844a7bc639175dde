/** The node entry of the Oenuma resource: merging replies into it and dropping deleted pods. */
module CustomResource {
  import opened Sequences
  import opened Text
  import opened AffinityReply
  import opened NumaTopology

  datatype Container = Container(containerId: string, name: string, cpuset: string, memset: string)

  datatype PodAffinity = PodAffinity(numaNum: int, podName: string, namespace: string, containers: seq<Container>)

  datatype Numa = Numa(numaNum: int, cpuset: string, memset: string)

  /** Go's conversion of an int64 to int32 keeps the low 32 bits. */
  function Int32(x: int): int {
    (x + 0x8000_0000) % 0x1_0000_0000 - 0x8000_0000
  }

  /** The one 32-bit value congruent to the number, which is the number itself when it fits. */
  lemma {:induction false} Int32Exactly(x: int)
    ensures -2147483648 <= Int32(x) <= 2147483647 && (x - Int32(x)) % 4294967296 == 0
    ensures -2147483648 <= x <= 2147483647 ==> Int32(x) == x
  {
  }

  /** A reported node as it enters the node entry. */
  function NumaOf(node: NumaNode): Numa {
    Numa(Int32(node.numaNumber), node.cpuset, node.memset)
  }

  ghost predicate DistinctNames(pa: seq<PodAffinity>) {
    forall i, j :: 0 <= i < j < |pa| ==> pa[i].podName != pa[j].podName
  }

  // ---- Merging ----

  /** One pod of a reply with the number of its group. */
  datatype Assignment = Assignment(podName: string, namespace: string, numaNum: int)

  function AssignmentOf(g: AffinityGroup, p: Pod): Assignment {
    Assignment(p.podName, p.podNamespace, Int32(g.numaNumber))
  }

  function GroupAssignments(g: AffinityGroup): (r: seq<Assignment>)
    ensures |r| == |g.pods| && forall i :: 0 <= i < |r| ==> r[i] == AssignmentOf(g, g.pods[i])
  {
    seq(|g.pods|, i requires 0 <= i < |g.pods| => AssignmentOf(g, g.pods[i]))
  }

  function Assignments(groups: seq<AffinityGroup>): seq<Assignment> {
    if groups == [] then []
    else Assignments(groups[..|groups| - 1]) + GroupAssignments(groups[|groups| - 1])
  }

  /** Group by group, in the order of the reply. */
  lemma {:induction false} AssignmentsInOrder(groups: seq<AffinityGroup>, g: AffinityGroup)
    ensures Assignments([]) == [] && Assignments(groups + [g]) == Assignments(groups) + GroupAssignments(g)
  {
    assert (groups + [g])[..|groups|] == groups;
  }

  /** Pod by pod, in the order of the group. */
  lemma {:induction false} GroupAssignmentsInOrder(g: AffinityGroup, i: nat)
    requires i < |g.pods|
    ensures |GroupAssignments(g)| == |g.pods|
    ensures GroupAssignments(g)[i] == Assignment(g.pods[i].podName, g.pods[i].podNamespace, Int32(g.numaNumber))
  {
  }

  /** The first entry with this pod name, or the length when there is none. */
  function FirstNamed(pa: seq<PodAffinity>, name: string): (i: nat)
    ensures i <= |pa|
    ensures i < |pa| ==> pa[i].podName == name
    ensures forall k :: 0 <= k < i ==> pa[k].podName != name
  {
    if pa == [] then 0
    else
      var i := FirstNamed(pa[..|pa| - 1], name);
      if i < |pa| - 1 || pa[|pa| - 1].podName == name then i else |pa|
  }

  function Assign(pa: seq<PodAffinity>, a: Assignment): seq<PodAffinity> {
    var i := FirstNamed(pa, a.podName);
    if i < |pa| then pa[i := pa[i].(numaNum := a.numaNum)]
    else pa + [PodAffinity(a.numaNum, a.podName, a.namespace, [])]
  }

  function Merge(pa: seq<PodAffinity>, todo: seq<Assignment>): seq<PodAffinity> {
    if todo == [] then pa
    else Assign(Merge(pa, todo[..|todo| - 1]), todo[|todo| - 1])
  }

  ghost predicate Names(todo: seq<Assignment>, name: string) {
    exists k :: 0 <= k < |todo| && todo[k].podName == name
  }

  /** The number the latest assignment gives to a name, or `default` when none does. */
  function NumberFor(todo: seq<Assignment>, name: string, default: int): int {
    if todo == [] then default
    else if todo[|todo| - 1].podName == name then todo[|todo| - 1].numaNum
    else NumberFor(todo[..|todo| - 1], name, default)
  }

  /** The namespace the earliest assignment gives to a name. */
  function NamespaceFor(todo: seq<Assignment>, name: string): string {
    if todo == [] then ""
    else if todo[0].podName == name then todo[0].namespace
    else NamespaceFor(todo[1..], name)
  }

  /** Assignment k is the last one of its name. */
  ghost predicate Latest(todo: seq<Assignment>, k: nat) {
    k < |todo| && forall l :: k < l < |todo| ==> todo[l].podName != todo[k].podName
  }

  /** Assignment k is the first one of its name. */
  ghost predicate Earliest(todo: seq<Assignment>, k: nat) {
    k < |todo| && forall l :: 0 <= l < k ==> todo[l].podName != todo[k].podName
  }

  /** The last assignment of a name gives its number; a name without one keeps its own. */
  lemma {:induction false} LatestNumberCounts(todo: seq<Assignment>, name: string, default: int)
    ensures forall k: nat :: Latest(todo, k) && todo[k].podName == name ==>
              NumberFor(todo, name, default) == todo[k].numaNum
    ensures !Names(todo, name) ==> NumberFor(todo, name, default) == default
  {
    if todo != [] {
      var init := todo[..|todo| - 1];
      LatestNumberCounts(init, name, default);
      NamesStep(todo, name);
      forall k: nat | k < |todo| - 1
        ensures Latest(todo, k) ==> Latest(init, k)
      {
      }
    }
  }

  /** The first assignment of a name gives its namespace. */
  lemma {:induction false} EarliestNamespaceCounts(todo: seq<Assignment>, k: nat)
    requires Earliest(todo, k)
    ensures NamespaceFor(todo, todo[k].podName) == todo[k].namespace
  {
    if k > 0 {
      EarliestNamespaceCounts(todo[1..], k - 1);
    }
  }

  lemma {:induction false} NamespaceForStep(todo: seq<Assignment>, a: Assignment, name: string)
    ensures NamespaceFor(todo + [a], name)
            == if Names(todo, name) then NamespaceFor(todo, name)
               else if a.podName == name then a.namespace else ""
  {
    if todo == [] {
      assert todo + [a] == [a];
    } else {
      NamespaceForStep(todo[1..], a, name);
      assert (todo + [a])[1..] == todo[1..] + [a];
      if Names(todo, name) && todo[0].podName != name {
        var k :| 0 <= k < |todo| && todo[k].podName == name;
        assert todo[1..][k - 1].podName == name;
      }
    }
  }

  ghost predicate HasName(pa: seq<PodAffinity>, name: string) {
    exists i :: 0 <= i < |pa| && pa[i].podName == name
  }

  /** No earlier entry has the name of the i-th. */
  ghost predicate IsFirst(pa: seq<PodAffinity>, i: nat)
    requires i < |pa|
  {
    forall k :: 0 <= k < i ==> pa[k].podName != pa[i].podName
  }

  /** What a reply makes of an old entry: the first of its name takes the latest number, any other stays. */
  ghost predicate Renumbered(pa: seq<PodAffinity>, todo: seq<Assignment>, i: nat, e: PodAffinity)
    requires i < |pa|
  {
    e == if IsFirst(pa, i) then pa[i].(numaNum := NumberFor(todo, pa[i].podName, pa[i].numaNum)) else pa[i]
  }

  /** What a reply makes of a name that has no entry yet. */
  ghost predicate Appended(pa: seq<PodAffinity>, todo: seq<Assignment>, e: PodAffinity) {
    && Names(todo, e.podName) && !HasName(pa, e.podName)
    && e == PodAffinity(NumberFor(todo, e.podName, 0), e.podName, NamespaceFor(todo, e.podName), [])
  }

  /** What a whole reply does to the entries, read off the reply alone. */
  ghost predicate MergedFrom(pa: seq<PodAffinity>, todo: seq<Assignment>, pa': seq<PodAffinity>) {
    && |pa| <= |pa'|
    && (forall i :: 0 <= i < |pa| ==> Renumbered(pa, todo, i, pa'[i]))
    && (forall i :: |pa| <= i < |pa'| ==> Appended(pa, todo, pa'[i]) && IsFirst(pa', i))
    && (forall name :: Names(todo, name) ==> HasName(pa', name))
  }

  lemma {:induction false} NamesStep(todo: seq<Assignment>, name: string)
    requires todo != []
    ensures Names(todo, name) <==> Names(todo[..|todo| - 1], name) || todo[|todo| - 1].podName == name
  {
    if Names(todo[..|todo| - 1], name) {
      var k :| 0 <= k < |todo| - 1 && todo[..|todo| - 1][k].podName == name;
      assert todo[k].podName == name;
    }
  }

  lemma {:induction false} NamesMore(init: seq<Assignment>, a: Assignment, name: string)
    ensures Names(init + [a], name) <==> Names(init, name) || a.podName == name
  {
    assert (init + [a])[..|init|] == init;
    NamesStep(init + [a], name);
  }

  lemma {:induction false} NumberForMore(init: seq<Assignment>, a: Assignment, name: string, default: int)
    ensures NumberFor(init + [a], name, default)
            == if a.podName == name then a.numaNum else NumberFor(init, name, default)
  {
    assert (init + [a])[..|init|] == init;
  }

  /**
   Old entries keep their place and all but the number, which only the first of a name changes; new names are appended
   once; nothing else happens.
   */
  lemma {:induction false} MergeCharacter(pa: seq<PodAffinity>, todo: seq<Assignment>)
    ensures MergedFrom(pa, todo, Merge(pa, todo))
    ensures DistinctNames(pa) ==> DistinctNames(Merge(pa, todo))
  {
    if todo == [] {
      NothingToMerge(pa);
    } else {
      var init := todo[..|todo| - 1];
      MergeCharacter(pa, init);
      MergeStep(pa, init, todo[|todo| - 1], Merge(pa, init));
      assert todo == init + [todo[|todo| - 1]];
    }
    MergedKeepsDistinct(pa, todo, Merge(pa, todo));
  }

  lemma {:induction false} NothingToMerge(pa: seq<PodAffinity>)
    ensures MergedFrom(pa, [], pa)
  {
  }

  lemma {:induction false} MergedKeepsDistinct(pa: seq<PodAffinity>, todo: seq<Assignment>, pa': seq<PodAffinity>)
    requires MergedFrom(pa, todo, pa')
    ensures DistinctNames(pa) ==> DistinctNames(pa')
  {
    assert forall i :: 0 <= i < |pa| ==> pa'[i].podName == pa[i].podName;
    if DistinctNames(pa) {
      forall i, j | 0 <= i < j < |pa'|
        ensures pa'[i].podName != pa'[j].podName
      {
        if j >= |pa| {
          assert IsFirst(pa', j);
        }
      }
    }
  }

  lemma {:induction false} MergeStep(pa: seq<PodAffinity>, init: seq<Assignment>, a: Assignment, mid: seq<PodAffinity>)
    requires MergedFrom(pa, init, mid)
    ensures MergedFrom(pa, init + [a], Assign(mid, a))
  {
    forall i | 0 <= i < |pa|
      ensures Renumbered(pa, init + [a], i, Assign(mid, a)[i])
    {
      MergeStepOld(pa, init, a, mid, i);
    }
    forall i | |pa| <= i < |Assign(mid, a)|
      ensures Appended(pa, init + [a], Assign(mid, a)[i]) && IsFirst(Assign(mid, a), i)
    {
      MergeStepNew(pa, init, a, mid, i);
    }
    forall name | Names(init + [a], name)
      ensures HasName(Assign(mid, a), name)
    {
      NamesMore(init, a, name);
      AssignKeepsNames(mid, a, name);
    }
  }

  /** Assigning changes no name that is already there. */
  lemma {:induction false} AssignAt(pa: seq<PodAffinity>, a: Assignment, i: nat)
    requires i < |pa|
    ensures Assign(pa, a)[i]
            == if pa[i].podName == a.podName && IsFirst(pa, i) then pa[i].(numaNum := a.numaNum) else pa[i]
    ensures IsFirst(Assign(pa, a), i) <==> IsFirst(pa, i)
  {
    FirstBySameNames(pa, Assign(pa, a), i);
  }

  lemma {:induction false} FirstBySameNames(pa: seq<PodAffinity>, pa': seq<PodAffinity>, i: nat)
    requires i < |pa| && i < |pa'| && forall k :: 0 <= k <= i ==> pa'[k].podName == pa[k].podName
    ensures IsFirst(pa', i) <==> IsFirst(pa, i)
  {
  }

  lemma {:induction false} MergeStepOld(pa: seq<PodAffinity>, init: seq<Assignment>, a: Assignment,
                                        mid: seq<PodAffinity>, i: nat)
    requires MergedFrom(pa, init, mid) && i < |pa|
    ensures Renumbered(pa, init + [a], i, Assign(mid, a)[i])
  {
    assert forall k :: 0 <= k < |pa| ==> Renumbered(pa, init, k, mid[k]);
    AssignAt(mid, a, i);
    NumberForMore(init, a, pa[i].podName, pa[i].numaNum);
    FirstBySameNames(pa, mid, i);
  }

  lemma {:induction false} MergeStepNew(pa: seq<PodAffinity>, init: seq<Assignment>, a: Assignment,
                                        mid: seq<PodAffinity>, i: nat)
    requires MergedFrom(pa, init, mid) && |pa| <= i < |Assign(mid, a)|
    ensures Appended(pa, init + [a], Assign(mid, a)[i]) && IsFirst(Assign(mid, a), i)
  {
    var name := Assign(mid, a)[i].podName;
    if i < |mid| {
      AssignAt(mid, a, i);
      assert Appended(pa, init, mid[i]) && IsFirst(mid, i);
    } else {
      assert name == a.podName && !HasName(mid, name);
      NamesStay(pa, init, mid, name);
    }
    NamesMore(init, a, name);
    NumberForMore(init, a, name, 0);
    NamespaceForStep(init, a, name);
  }

  lemma {:induction false} NamesStay(pa: seq<PodAffinity>, todo: seq<Assignment>, pa': seq<PodAffinity>, name: string)
    requires MergedFrom(pa, todo, pa')
    ensures HasName(pa, name) || Names(todo, name) ==> HasName(pa', name)
  {
    if i :| 0 <= i < |pa| && pa[i].podName == name {
      assert Renumbered(pa, todo, i, pa'[i]);
      assert pa'[i].podName == name;
    }
  }

  lemma {:induction false} AssignKeepsNames(pa: seq<PodAffinity>, a: Assignment, name: string)
    requires HasName(pa, name) || a.podName == name
    ensures HasName(Assign(pa, a), name)
  {
    if a.podName == name {
      assert Assign(pa, a)[FirstNamed(pa, name)].podName == name;
    } else {
      var k :| 0 <= k < |pa| && pa[k].podName == name;
      assert Assign(pa, a)[k].podName == name;
    }
  }

  lemma {:induction false} MergeLast(pa: seq<PodAffinity>, init: seq<Assignment>, a: Assignment)
    ensures Merge(pa, init + [a]) == Assign(Merge(pa, init), a)
  {
    assert (init + [a])[..|init|] == init;
  }

  lemma {:induction false} MergeOneMore(pa: seq<PodAffinity>, done: seq<Assignment>, more: seq<Assignment>, p: nat)
    requires p < |more|
    ensures Merge(pa, done + more[..p + 1]) == Assign(Merge(pa, done + more[..p]), more[p])
  {
    MergeLast(pa, done + more[..p], more[p]);
    assert done + more[..p + 1] == (done + more[..p]) + [more[p]];
  }

  // ---- Deleting ----

  predicate Stays(e: PodAffinity, name: string, namespace: string) {
    e.podName != name || e.namespace != namespace
  }

  /** The entries that do not name this pod, in their order. */
  function Remaining(pa: seq<PodAffinity>, name: string, namespace: string): seq<PodAffinity> {
    if pa == [] then []
    else
      var init := Remaining(pa[..|pa| - 1], name, namespace);
      var e := pa[|pa| - 1];
      if Stays(e, name, namespace) then init + [e] else init
  }

  /** `left` holds exactly the entries of `pa` that stay, in order; left[k] is pa[at[k]]. */
  ghost predicate Filtered(pa: seq<PodAffinity>, name: string, namespace: string, left: seq<PodAffinity>,
                           at: seq<nat>)
  {
    && |at| == |left| && Ascending(at)
    && (forall k :: 0 <= k < |at| ==> at[k] < |pa| && left[k] == pa[at[k]])
    && (forall i :: 0 <= i < |pa| ==> (i in at <==> pa[i].podName != name || pa[i].namespace != namespace))
  }

  lemma {:induction false} FilteredStep(pa: seq<PodAffinity>, name: string, namespace: string,
                                        left: seq<PodAffinity>, at: seq<nat>)
    requires pa != [] && Filtered(pa[..|pa| - 1], name, namespace, left, at)
    ensures !Stays(pa[|pa| - 1], name, namespace) ==> Filtered(pa, name, namespace, left, at)
    ensures Stays(pa[|pa| - 1], name, namespace) ==>
      Filtered(pa, name, namespace, left + [pa[|pa| - 1]], at + [|pa| - 1])
  {
    assert forall i :: i in at ==> i < |pa| - 1;
    assert forall i :: 0 <= i < |pa| - 1 ==> pa[..|pa| - 1][i] == pa[i];
  }

  lemma {:induction false} FilteredIsDistinct(pa: seq<PodAffinity>, name: string, namespace: string,
                                              left: seq<PodAffinity>, at: seq<nat>)
    requires Filtered(pa, name, namespace, left, at) && DistinctNames(pa)
    ensures DistinctNames(left)
  {
    forall i, j | 0 <= i < j < |left|
      ensures left[i].podName != left[j].podName
    {
      assert at[i] < at[j];
    }
  }

  /** Remaining is the order-preserving filter. */
  lemma {:induction false} RemainingCharacter(pa: seq<PodAffinity>, name: string, namespace: string)
    returns (at: seq<nat>)
    ensures Filtered(pa, name, namespace, Remaining(pa, name, namespace), at)
    ensures DistinctNames(pa) ==> DistinctNames(Remaining(pa, name, namespace))
  {
    at := [];
    if pa != [] {
      var init := pa[..|pa| - 1];
      at := RemainingCharacter(init, name, namespace);
      FilteredStep(pa, name, namespace, Remaining(init, name, namespace), at);
      if Stays(pa[|pa| - 1], name, namespace) {
        at := at + [|pa| - 1];
      }
    }
    if DistinctNames(pa) {
      FilteredIsDistinct(pa, name, namespace, Remaining(pa, name, namespace), at);
    }
  }

  // ---- Reading cpuset texts back ----

  /** The CPUs a container's cpuset text names. */
  function UsedCpus(c: Container): seq<string> {
    if c.cpuset == "" then [] else Split(c.cpuset, ',')
  }

  function UsedByEach(cs: seq<Container>): (r: seq<seq<string>>)
    ensures |r| == |cs| && forall m :: 0 <= m < |cs| ==> r[m] == UsedCpus(cs[m])
  {
    seq(|cs|, m requires 0 <= m < |cs| => UsedCpus(cs[m]))
  }

  /** A container whose cpuset was joined from comma-free names uses exactly those, but one empty name reads as none. */
  lemma {:induction false} UsedCpusReadBack(names: seq<string>, id: string, name: string, memset: string)
    requires AllAvoid(names, ',')
    ensures UsedCpus(Container(id, name, Join(names, ','), memset)) == if names == [""] then [] else names
  {
    SplitJoin(names, ',');
    if |names| == 1 {
      assert Join(names, ',') == names[0];
      assert names == [names[0]];
    }
  }

  /** Adding a container appends its CPUs. */
  lemma {:induction false} UsedByEachStep(cs: seq<Container>, c: Container, used: seq<string>, more: seq<string>,
                                          all: seq<string>)
    requires Concat(UsedByEach(cs)) == used && UsedCpus(c) == more && used + more == all
    ensures Concat(UsedByEach(cs + [c])) == all
  {
    assert (UsedByEach(cs) + [UsedCpus(c)])[..|cs|] == UsedByEach(cs);
    assert UsedByEach(cs + [c]) == UsedByEach(cs) + [UsedCpus(c)];
  }

  /** The agent's entry for its own worker node. */
  class Node {
    const name: string
    var numa: seq<Numa>
    var podAffinity: seq<PodAffinity>

    constructor (name: string, numa: seq<Numa>, podAffinity: seq<PodAffinity>)
      ensures this.name == name && this.numa == numa && this.podAffinity == podAffinity
    {
      this.name, this.numa, this.podAffinity := name, numa, podAffinity;
    }

    /** Moves every pod of the reply to its group's NUMA node, adding an entry where there is none. */
    method MergeGroups(groups: seq<AffinityGroup>)
      modifies `podAffinity
      ensures podAffinity == Merge(old(podAffinity), Assignments(groups))
    {
      ghost var was := podAffinity;
      for g := 0 to |groups|
        invariant podAffinity == Merge(was, Assignments(groups[..g]))
      {
        var group := groups[g];
        ghost var done := Assignments(groups[..g]);
        assert groups[..g + 1][..g] == groups[..g];
        assert done + GroupAssignments(group)[..0] == done;
        for p := 0 to |group.pods|
          invariant podAffinity == Merge(was, done + GroupAssignments(group)[..p])
        {
          MergePod(group.pods[p], group.numaNumber);
          MergeOneMore(was, done, GroupAssignments(group), p);
        }
        assert GroupAssignments(group)[..|group.pods|] == GroupAssignments(group);
      }
      assert groups[..|groups|] == groups;
    }

    method MergePod(pod: Pod, numaNumber: int)
      modifies `podAffinity
      ensures podAffinity == Assign(old(podAffinity), Assignment(pod.podName, pod.podNamespace, Int32(numaNumber)))
    {
      var adjusted := false;
      for idx := 0 to |podAffinity|
        invariant !adjusted && podAffinity == old(podAffinity)
        invariant forall k :: 0 <= k < idx ==> podAffinity[k].podName != pod.podName
      {
        if podAffinity[idx].podName == pod.podName {
          adjusted := true;
          podAffinity := podAffinity[idx := podAffinity[idx].(numaNum := Int32(numaNumber))];
          break;
        }
      }
      if !adjusted {
        podAffinity := podAffinity + [PodAffinity(Int32(numaNumber), pod.podName, pod.podNamespace, [])];
      }
    }

    /** Compacts the kept entries to the front of the slice and cuts the rest off. */
    method DeletePod(name: string, namespace: string)
      modifies `podAffinity
      ensures podAffinity == Remaining(old(podAffinity), name, namespace)
    {
      var slice := new PodAffinity[|podAffinity|](i requires 0 <= i < |podAffinity| reads this => podAffinity[i]);
      assert slice[..] == podAffinity;
      var j := Compact(slice, name, namespace);
      podAffinity := slice[..j];
    }
  }

  method Compact(slice: array<PodAffinity>, name: string, namespace: string) returns (j: nat)
    modifies slice
    ensures j <= slice.Length && slice[..j] == Remaining(old(slice[..]), name, namespace)
  {
    j := 0;
    ghost var was := slice[..];
    for i := 0 to slice.Length
      invariant j <= i
      invariant slice[..j] == Remaining(was[..i], name, namespace)
      invariant forall k :: i <= k < slice.Length ==> slice[k] == was[k]
    {
      var e := slice[i];
      RemainingStep(was, i, name, namespace);
      if e.podName != name || e.namespace != namespace {
        ghost var kept := slice[..j];
        slice[j] := e;
        j := j + 1;
        assert slice[..j] == kept + [e];
      }
    }
    assert was[..slice.Length] == was;
  }

  lemma {:induction false} RemainingStep(pa: seq<PodAffinity>, i: nat, name: string, namespace: string)
    requires i < |pa|
    ensures Remaining(pa[..i + 1], name, namespace) == Remaining(pa[..i], name, namespace)
            + if Stays(pa[i], name, namespace) then [pa[i]] else []
  {
    assert pa[..i + 1][..i] == pa[..i];
  }
}
