/** The network-affinity server: reported pid pairs, the joins they cause, and the reply. */
module NetRelaServer {
  import opened Sequences
  import opened Chains
  import opened UnionFind
  import opened AffinityReply
  import opened NumaTopology

  datatype NetRela = NetRela(pidA: int, pidB: int, level: int)

  datatype PodInfo = PodInfo(uid: string, tids: seq<int>)

  // ---- What it means for two pods to be affine ----

  /** Some reported pair has one pid in each pod, in either order. */
  ghost predicate SharePair(p1: PodInfo, p2: PodInfo, rls: seq<NetRela>) {
    exists r :: r in rls && Crosses(r, p1, p2)
  }

  ghost predicate Crosses(r: NetRela, p1: PodInfo, p2: PodInfo) {
    (r.pidA in p1.tids && r.pidB in p2.tids) || (r.pidA in p2.tids && r.pidB in p1.tids)
  }

  /** All position pairs of affine pods. */
  ghost function Affine(infos: seq<PodInfo>, rls: seq<NetRela>): (e: Edges)
    ensures SymmetricBelow(e, |infos|)
  {
    var e := set a: nat, b: nat | a < |infos| && b < |infos| && SharePair(infos[a], infos[b], rls) :: (a, b);
    assert forall a, b :: (a, b) in e ==> (b, a) in e by {
      forall a, b | (a, b) in e
        ensures (b, a) in e
      {
        var r :| r in rls && Crosses(r, infos[a], infos[b]);
        assert Crosses(r, infos[b], infos[a]);
      }
    }
    e
  }

  /** Two pods are linked exactly when a reported pair has one pid in each, in either order. */
  lemma {:induction false} AffineExactly(infos: seq<PodInfo>, rls: seq<NetRela>, a: nat, b: nat)
    requires a < |infos| && b < |infos|
    ensures (a, b) in Affine(infos, rls)
            <==> exists i :: 0 <= i < |rls| && ((rls[i].pidA in infos[a].tids && rls[i].pidB in infos[b].tids)
                                                || (rls[i].pidA in infos[b].tids && rls[i].pidB in infos[a].tids))
  {
    if r :| r in rls && Crosses(r, infos[a], infos[b]) {
      var i :| 0 <= i < |rls| && rls[i] == r;
    }
    if i :| 0 <= i < |rls| && Crosses(rls[i], infos[a], infos[b]) {
      assert rls[i] in rls;
    }
  }

  // ---- The graph of reported pairs ----

  type Graph = map<int, set<int>>

  predicate HasArc(gah: Graph, a: int, b: int) {
    a in gah && b in gah[a]
  }

  ghost predicate Reported(rls: seq<NetRela>, a: int, b: int) {
    exists r :: r in rls && r.pidA == a && r.pidB == b
  }

  /** The graph has exactly the reported pairs as arcs, in the reported direction only. */
  ghost predicate GraphOf(gah: Graph, rls: seq<NetRela>) {
    forall a, b :: HasArc(gah, a, b) <==> Reported(rls, a, b)
  }

  method GenerateNetRelaGraph(rls: seq<NetRela>) returns (gah: Graph)
    ensures GraphOf(gah, rls)
    ensures forall a :: a in gah <==> exists r :: r in rls && (r.pidA == a || r.pidB == a)
  {
    gah := map[];
    for i := 0 to |rls|
      invariant forall a, b :: HasArc(gah, a, b) <==> Reported(rls[..i], a, b)
      invariant forall a :: a in gah <==> exists r :: r in rls[..i] && (r.pidA == a || r.pidB == a)
    {
      var r := rls[i];
      ghost var was := gah;
      assert rls[..i + 1] == rls[..i] + [r];
      if r.pidA !in gah {
        gah := gah[r.pidA := {}];
      }
      gah := gah[r.pidA := gah[r.pidA] + {r.pidB}];
      if r.pidB !in gah {
        gah := gah[r.pidB := {}];
      }
      gah := gah[r.pidA := gah[r.pidA] + {r.pidB}];
      forall a, b
        ensures HasArc(gah, a, b) <==> Reported(rls[..i + 1], a, b)
      {
        assert HasArc(gah, a, b) <==> HasArc(was, a, b) || (a == r.pidA && b == r.pidB);
        assert Reported(rls[..i + 1], a, b) <==> Reported(rls[..i], a, b) || (a == r.pidA && b == r.pidB) by {
          if a == r.pidA && b == r.pidB {
            assert r in rls[..i + 1];
          }
        }
      }
    }
    assert rls[..|rls|] == rls;
  }

  ghost predicate LinkedThreads(gah: Graph, p1: PodInfo, p2: PodInfo) {
    exists t1, t2 :: t1 in p1.tids && t2 in p2.tids && (HasArc(gah, t1, t2) || HasArc(gah, t2, t1))
  }

  /** Looks each thread pair up in both directions; this decides whether the pods share a reported pair. */
  method HasPodAffinity(p1: PodInfo, p2: PodInfo, gah: Graph, ghost rls: seq<NetRela>) returns (b: bool)
    requires GraphOf(gah, rls)
    ensures b <==> SharePair(p1, p2, rls)
  {
    LookupDecidesSharing(p1, p2, rls, gah);
    for i := 0 to |p1.tids|
      invariant forall k, t2 :: 0 <= k < i && t2 in p2.tids ==>
                !HasArc(gah, p1.tids[k], t2) && !HasArc(gah, t2, p1.tids[k])
    {
      var t1 := p1.tids[i];
      for j := 0 to |p2.tids|
        invariant forall l :: 0 <= l < j ==> !HasArc(gah, t1, p2.tids[l]) && !HasArc(gah, p2.tids[l], t1)
      {
        var t2 := p2.tids[j];
        if HasArc(gah, t1, t2) {
          return true;
        }
        if HasArc(gah, t2, t1) {
          return true;
        }
      }
    }
    return false;
  }

  /** The two-way lookup in the one-way graph decides exactly whether the pods share a pair. */
  lemma {:induction false} LookupDecidesSharing(p1: PodInfo, p2: PodInfo, rls: seq<NetRela>, gah: Graph)
    requires GraphOf(gah, rls)
    ensures LinkedThreads(gah, p1, p2) <==> SharePair(p1, p2, rls)
  {
    if t1, t2 :| t1 in p1.tids && t2 in p2.tids && (HasArc(gah, t1, t2) || HasArc(gah, t2, t1)) {
      var r :| r in rls && ((r.pidA == t1 && r.pidB == t2) || (r.pidA == t2 && r.pidB == t1));
      assert Crosses(r, p1, p2);
    }
    if r :| r in rls && Crosses(r, p1, p2) {
      assert Reported(rls, r.pidA, r.pidB);
      assert HasArc(gah, r.pidA, r.pidB);
    }
  }

  /** The pod infos of a request whose i-th pod has the threads tids[i]. */
  function InfosOf(pods: seq<Pod>, tids: seq<seq<int>>): (r: seq<PodInfo>)
    requires |tids| == |pods|
    ensures |r| == |pods| && forall i :: 0 <= i < |pods| ==> r[i] == PodInfo(pods[i].uid, tids[i])
  {
    seq(|pods|, i requires 0 <= i < |pods| => PodInfo(pods[i].uid, tids[i]))
  }

  /** Two pods that share a pair, asked about before the topology is: whatever the map's order, a division by zero. */
  lemma {:induction false} FirstRequestDividesByZero(order: seq<nat>, reps: seq<nat>)
    requires |reps| == 2 && Enumerates(order, reps)
    requires NamesComponents(reps, Affine([PodInfo("a", [1]), PodInfo("b", [2])], [NetRela(1, 2, 0)]))
    ensures OutcomeIn(order, reps, [Pod("a", "p", "ns", []), Pod("b", "q", "ns", [])], 0) == DivideByZero
  {
    var infos, rls := [PodInfo("a", [1]), PodInfo("b", [2])], [NetRela(1, 2, 0)];
    var e := Affine(infos, rls);
    assert rls[0] in rls && Crosses(rls[0], infos[0], infos[1]);
    assert (0, 1) in e;
    OneEdge(e, 0, 1);
    assert HasPartner(e, 2, 0);
    DividesByZeroExactly(order, reps, [Pod("a", "p", "ns", []), Pod("b", "q", "ns", [])], e, 0);
  }

  class Server {
    const forest: DisjointSets
    var numaNums: nat

    constructor (capacity: nat)
      ensures forest.Valid() && fresh(forest) && fresh(forest.fa) && forest.fa.Length == capacity && numaNums == 0
    {
      forest := new DisjointSets(capacity);
      numaNums := 0;
    }

    /** After the double loop, representatives agree exactly on pods linked by a chain of affine pods. */
    method InitNetRelationship(infos: seq<PodInfo>, rls: seq<NetRela>)
      requires |infos| < forest.fa.Length
      modifies forest, forest.fa
      ensures Joined(forest, |infos|, Affine(infos, rls))
    {
      var gah := GenerateNetRelaGraph(rls);
      var n := |infos|;
      ghost var e := Affine(infos, rls);
      StartForest(forest, n, e);
      for i := 0 to n
        invariant Joined(forest, n, Before(e, i, 0))
      {
        BeforeRow(e, i, n);
        for j := i + 1 to n
          invariant Joined(forest, n, Before(e, i, j))
        {
          var affine := HasPodAffinity(infos[i], infos[j], gah, rls);
          JoinIfAffine(forest, n, i, j, affine, e);
        }
      }
      ForestComplete(forest, n, e);
    }

    /** One affinity request; `rls` are the pairs reported so far, tids[i] the threads of pods[i]. */
    method GetPodAffinity(pods: seq<Pod>, tids: seq<seq<int>>, rls: seq<NetRela>) returns (out: Outcome)
      requires |pods| < forest.fa.Length && |tids| == |pods|
      modifies forest, forest.fa
      ensures out.DivideByZero? <==> numaNums == 0 && SomePartner(Affine(InfosOf(pods, tids), rls), |pods|)
      ensures numaNums == 0 && out.Reply? ==> out.groups == []
      ensures numaNums > 0 && DistinctUids(pods) ==>
        CorrectReply(out.groups, pods, Affine(InfosOf(pods, tids), rls), numaNums)
    {
      var infos := InfosOf(pods, tids);
      InitNetRelationship(infos, rls);
      var uids := seq(|infos|, i requires 0 <= i < |infos| => infos[i].uid);
      ghost var reps := forest.Reps()[..|pods|];
      out := GetPodsAffinity(forest, uids, pods, numaNums);
      ghost var order :| Enumerates(order, reps) && out == OutcomeIn(order, reps, pods, numaNums);
      DividesByZeroExactly(order, reps, pods, Affine(infos, rls), numaNums);
      if numaNums > 0 && DistinctUids(pods) {
        ReplyIsCorrect(order, reps, pods, Affine(infos, rls), numaNums);
      }
    }

    /** Reads the machine's topology and remembers how many nodes replies may number. */
    method GetNumaNodeInfo(nodeOf: seq<int>, maxNode: nat) returns (nodes: seq<NumaNode>)
      requires forall i :: 0 <= i <= maxNode ==> |IndicesOf(nodeOf, i)| <= CPUSET_CAPACITY
      modifies `numaNums
      ensures nodes == NodeMessages(nodeOf, maxNode) && numaNums == |nodes| == maxNode + 1
      ensures forall i :: 0 <= i <= maxNode ==> Describes(nodes[i], nodeOf, i)
    {
      var ni := GetNumaInfo(nodeOf, maxNode);
      nodes := NumaNodeResponse(ni, nodeOf);
      forall i | 0 <= i <= maxNode
        ensures Describes(nodes[i], nodeOf, i)
      {
        MessageDescribesNode(nodeOf, i);
      }
      numaNums := |ni|;
    }
  }
}
