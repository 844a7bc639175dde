/** The agent's update under the network-affinity policy: two requests to the server, then the node entry. */
module NumafastUpdate {
  import opened Sequences
  import opened Cluster
  import opened AffinityReply
  import opened CustomResource
  import opened NumaTopology
  import opened NumafastAllocator
  import opened NetAffinityRun
  import opened NetRelaServer
  import opened Reconciliation

  /** The two requests of one reconciliation. */
  method Ask(server: Server, pods: seq<PodItem>, tids: seq<seq<int>>, rls: seq<NetRela>, nodeOf: seq<int>, maxNode: nat)
    returns (nodes: seq<NumaNode>, groups: seq<AffinityGroup>)
    requires |pods| < server.forest.fa.Length && |tids| == |pods| && DistinctPods(pods)
    requires forall i :: 0 <= i <= maxNode ==> |IndicesOf(nodeOf, i)| <= CPUSET_CAPACITY
    modifies server`numaNums, server.forest, server.forest.fa
    ensures nodes == NodeMessages(nodeOf, maxNode)
    ensures CorrectReply(groups, RequestPods(pods), Affine(InfosOf(RequestPods(pods), tids), rls), maxNode + 1)
  {
    nodes := server.GetNumaNodeInfo(nodeOf, maxNode);
    var reply := server.GetPodAffinity(RequestPods(pods), tids, rls);
    groups := reply.groups;
  }

  /** Merges the groups into the node entry and places every entry. */
  method Apply(node: Node, pods: seq<PodItem>, nodes: seq<NumaNode>, groups: seq<AffinityGroup>) returns (ok: bool)
    modifies node`podAffinity
    ensures ok <==> AllInRange(pods, nodes, node.numa, Merge(old(node.podAffinity), Assignments(groups)))
    ensures ok ==>
      node.podAffinity == PlacedAll(pods, nodes, node.numa, Merge(old(node.podAffinity), Assignments(groups)))
  {
    node.MergeGroups(groups);
    ok := UpdateContainers(node, pods, nodes);
  }

  /** The reconciliation of the agent: topology, affinity reply, merge, placement. */
  method Tick(server: Server, node: Node, pods: seq<PodItem>, tids: seq<seq<int>>, rls: seq<NetRela>,
              nodeOf: seq<int>, maxNode: nat)
    returns (ok: bool, ghost groups: seq<AffinityGroup>)
    requires |pods| < server.forest.fa.Length && |tids| == |pods| && DistinctPods(pods)
    requires forall i :: 0 <= i <= maxNode ==> |IndicesOf(nodeOf, i)| <= CPUSET_CAPACITY
    requires maxNode < 0x8000_0000
    modifies server`numaNums, server.forest, server.forest.fa, node`podAffinity
    ensures CorrectReply(groups, RequestPods(pods), Affine(InfosOf(RequestPods(pods), tids), rls), maxNode + 1)
    ensures StepDone(ok, old(node.podAffinity), node.podAffinity, node.numa,
                     Reconcile(groups, pods, NodeMessages(nodeOf, maxNode)))
    ensures Mirrors(node.numa, NodeMessages(nodeOf, maxNode)) && Numbered(old(node.podAffinity), maxNode + 1) ==>
      ok && Reunited(old(node.podAffinity), node.podAffinity, pods, NodeMessages(nodeOf, maxNode),
                     Affine(InfosOf(RequestPods(pods), tids), rls))
  {
    ghost var before, e := node.podAffinity, Affine(InfosOf(RequestPods(pods), tids), rls);
    var nodes, reply := Ask(server, pods, tids, rls, nodeOf, maxNode);
    groups := reply;
    ok := Apply(node, pods, nodes, reply);
    TickIsStep(ok, before, node.podAffinity, groups, pods, nodes, maxNode + 1, node.numa, e);
    if Mirrors(node.numa, nodes) && Numbered(before, |nodes|) {
      ReconciliationBringsTogether(before, groups, pods, e, nodeOf, maxNode, node.numa);
    }
  }
}
