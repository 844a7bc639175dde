/** What start-up does to the stored resource, and what the reconciliations after it inherit. */
module StartUp {
  import opened Text
  import opened Cluster
  import opened AffinityReply
  import opened CustomResource
  import opened NumaTopology
  import opened NumafastAllocator
  import opened NetAffinityRun
  import opened Reconciliation
  import opened LoadBalancer

  /** One worker node's part of the resource. */
  datatype NodeEntry = NodeEntry(name: string, numa: seq<Numa>, podAffinity: seq<PodAffinity>)

  /** How the cluster and the server answer a start-up; `found` is what the new resource holds when it is read back. */
  datatype Answers = Answers(created: bool, found: seq<NodeEntry>, readOk: bool, topology: Option<seq<NumaNode>>,
                             updateOk: bool)

  predicate AllAnswer(a: Answers) {
    a.created && a.readOk && a.topology.Some? && a.updateOk
  }

  function NumasOf(nodes: seq<NumaNode>): (r: seq<Numa>)
    ensures |r| == |nodes|
    ensures forall n :: 0 <= n < |r| ==> r[n] == Numa(Int32(nodes[n].numaNumber), nodes[n].cpuset, nodes[n].memset)
  {
    seq(|nodes|, n requires 0 <= n < |nodes| => NumaOf(nodes[n]))
  }

  /** The last entry of this name, or -1. */
  function LastAt(entries: seq<NodeEntry>, name: string): (i: int)
    ensures -1 <= i < |entries| && (i >= 0 ==> entries[i].name == name)
    ensures forall k :: i < k < |entries| ==> entries[k].name != name
  {
    if entries == [] then -1
    else if entries[|entries| - 1].name == name then |entries| - 1
    else LastAt(entries[..|entries| - 1], name)
  }

  /** The resource with this node's last entry reset, or a new one appended. */
  function SetUp(entries: seq<NodeEntry>, name: string, nodes: seq<NumaNode>): seq<NodeEntry> {
    var at, reset := LastAt(entries, name), NodeEntry(name, NumasOf(nodes), []);
    if at < 0 then entries + [reset] else entries[at := reset]
  }

  /** One entry is reset, the last of the name, or else one is appended; every other entry stays as it was found. */
  lemma {:induction false} SetUpTouchesOneEntry(found: seq<NodeEntry>, name: string, nodes: seq<NumaNode>, i: nat)
    requires i < |found| ==> found[i].name == name
    requires forall k :: i < k < |found| ==> found[k].name != name
    requires i >= |found| ==> forall k :: 0 <= k < |found| ==> found[k].name != name
    ensures SetUp(found, name, nodes)
            == if i < |found| then found[i := NodeEntry(name, NumasOf(nodes), [])]
               else found + [NodeEntry(name, NumasOf(nodes), [])]
  {
  }

  /** What is stored after start-up: a resource that existed is left alone. */
  function AfterStartUp(stored: Option<seq<NodeEntry>>, name: string, a: Answers): Option<seq<NodeEntry>> {
    if stored.Some? then stored
    else if !a.created then None
    else if AllAnswer(a) then Some(SetUp(a.found, name, a.topology.value))
    else Some(a.found)
  }

  class Resource {
    var stored: Option<seq<NodeEntry>>

    constructor (stored: Option<seq<NodeEntry>>)
      ensures this.stored == stored
    {
      this.stored := stored;
    }

    /** Creates the resource unless it exists. */
    method CreateConfigCrd(a: Answers) returns (ok: bool)
      modifies this
      ensures ok <==> old(stored).None? && a.created
      ensures stored == if ok then Some(a.found) else old(stored)
    {
      if stored.Some? {
        return false;
      }
      if !a.created {
        return false;
      }
      stored := Some(a.found);
      return true;
    }

    /** Start-up: only a resource just created is filled in. */
    method SetupConfigCrd(name: string, a: Answers) returns (ok: bool)
      modifies this
      ensures ok <==> old(stored).None? && AllAnswer(a)
      ensures stored == AfterStartUp(old(stored), name, a)
      ensures old(stored) != None ==> stored == old(stored)
      ensures old(stored) == None && !ok ==> stored == if a.created then Some(a.found) else None
      ensures ok ==> stored == Some(SetUp(a.found, name, a.topology.value))
    {
      ok := CreateConfigCrd(a);
      if !ok {
        return;
      }
      if !a.readOk {
        return false;
      }
      var entries, target := a.found, -1;
      for idx := 0 to |entries|
        invariant target == LastAt(entries[..idx], name)
      {
        assert entries[..idx + 1][..idx] == entries[..idx];
        if entries[idx].name == name {
          target := idx;
        }
      }
      assert entries[..|entries|] == entries;
      if a.topology.None? {
        return false;
      }
      var numa := CopyTopology(a.topology.value);
      if target < 0 {
        entries := entries + [NodeEntry(name, numa, [])];
      } else {
        entries := entries[target := entries[target].(podAffinity := [], numa := numa)];
      }
      if !a.updateOk {
        return false;
      }
      stored := Some(entries);
    }
  }

  method CopyTopology(nodes: seq<NumaNode>) returns (numa: seq<Numa>)
    ensures numa == NumasOf(nodes)
  {
    numa := [];
    for i := 0 to |nodes|
      invariant |numa| == i && forall n :: 0 <= n < i ==> numa[n] == NumaOf(nodes[n])
    {
      numa := numa + [Numa(Int32(nodes[i].numaNumber), nodes[i].cpuset, nodes[i].memset)];
    }
  }

  // ---- What the reconciliations find ----

  /** The entry every reconciliation works on: the first of the node's name. */
  function EntryOf(entries: seq<NodeEntry>, name: string): Option<NodeEntry> {
    if entries == [] then None
    else if entries[0].name == name then Some(entries[0])
    else EntryOf(entries[1..], name)
  }

  lemma {:induction false} EntryOfAt(entries: seq<NodeEntry>, name: string, i: nat)
    requires i < |entries| && entries[i].name == name && forall k :: 0 <= k < i ==> entries[k].name != name
    ensures EntryOf(entries, name) == Some(entries[i])
  {
    if i > 0 {
      EntryOfAt(entries[1..], name, i - 1);
    }
  }

  /** Some entry of this name comes before the last one. */
  ghost predicate Twice(entries: seq<NodeEntry>, name: string) {
    exists k :: 0 <= k < LastAt(entries, name) && entries[k].name == name
  }

  lemma {:induction false} FirstOf(entries: seq<NodeEntry>, name: string, k: nat) returns (i: nat)
    requires k < |entries| && entries[k].name == name
    ensures i <= k && entries[i].name == name && forall l :: 0 <= l < i ==> entries[l].name != name
  {
    i := 0;
    while entries[i].name != name
      invariant i <= k && forall l :: 0 <= l < i ==> entries[l].name != name
      decreases k - i
    {
      i := i + 1;
    }
  }

  /** A filled-in resource gives reconciliations a fresh entry, unless the node has two: then the first is as found. */
  lemma {:induction false} SetUpGives(found: seq<NodeEntry>, name: string, nodes: seq<NumaNode>)
    ensures EntryOf(SetUp(found, name, nodes), name)
            == if Twice(found, name) then EntryOf(found, name) else Some(NodeEntry(name, NumasOf(nodes), []))
  {
    var at, after := LastAt(found, name), SetUp(found, name, nodes);
    if Twice(found, name) {
      var k :| 0 <= k < at && found[k].name == name;
      var i := FirstOf(found, name, k);
      EntryOfAt(found, name, i);
      EntryOfAt(after, name, i);
    } else {
      EntryOfAt(after, name, if at < 0 then |found| else at);
    }
  }

  /** The node has an entry that reconciliations can work on. */
  ghost predicate Ready(stored: Option<seq<NodeEntry>>, name: string, nodes: seq<NumaNode>) {
    && stored.Some? && EntryOf(stored.value, name).Some?
    && var entry := EntryOf(stored.value, name).value;
    Mirrors(entry.numa, nodes) && WellFormed(entry.podAffinity, |nodes|)
  }

  /**
   After start-up the node's entry mirrors the topology and is well-formed exactly when it was so in a resource that
   existed or, where one was created, when it could be filled in and the node was not found twice, or was so as found.
   */
  lemma {:induction false} ReadyAfterStartUpExactly(
    stored: Option<seq<NodeEntry>>, name: string, a: Answers, nodeOf: seq<int>, maxNode: nat)
    requires maxNode < 0x8000_0000 && (a.topology.Some? ==> a.topology.value == NodeMessages(nodeOf, maxNode))
    ensures var nodes := NodeMessages(nodeOf, maxNode);
            Ready(AfterStartUp(stored, name, a), name, nodes)
            <==> if stored.Some? then Ready(stored, name, nodes)
                 else a.created && ((AllAnswer(a) && !Twice(a.found, name)) || Ready(Some(a.found), name, nodes))
  {
    var nodes := NodeMessages(nodeOf, maxNode);
    if stored.None? && AllAnswer(a) {
      SetUpGives(a.found, name, nodes);
      SetupMirrors(NumasOf(nodes), nodeOf, maxNode);
    }
  }

  /**
   A change of policy: load balancing wrote the entry of a pod a of prod, start-up finds the resource and leaves it, and
   the first reconciliation gives the linked pod a of default no entry.
   */
  lemma {:induction false} PolicyChangeHidesPod(groups: seq<AffinityGroup>, numa: seq<Numa>, nodeOf: seq<int>,
                                                maxNode: nat, a: Answers)
    requires CorrectReply(groups, RequestPods(Pair()), LINKED, maxNode + 1) && maxNode < 0x8000_0000
    requires Mirrors(numa, NodeMessages(nodeOf, maxNode))
    ensures var nodes := NodeMessages(nodeOf, maxNode);
            var prod := [PodItem("a", "prod", "u", "BestEffort", [], [])];
            var balanced := Entries(prod, AllCpus(nodes), PerNode(nodes), |nodes|);
            var stored := AfterStartUp(Some([NodeEntry("worker", numa, balanced)]), "worker", a);
            && Ready(stored, "worker", nodes)
            && var entry := EntryOf(stored.value, "worker").value;
            !HasOwn(Step(entry.podAffinity, entry.numa, Reconcile(groups, Pair(), nodes)), Pair()[0])
  {
    var nodes, p := NodeMessages(nodeOf, maxNode), PodItem("a", "prod", "u", "BestEffort", [], []);
    assert "BestEffort"[0] != GUARANTEED[0];
    assert [p][..0] == [];
    assert Entries([p], AllCpus(nodes), PerNode(nodes), |nodes|) == [PodAffinity(0, "a", "prod", [])];
    OtherNamespaceHidesPod(groups, nodes, numa);
  }
}
