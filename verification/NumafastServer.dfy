/** The kernel-group server: pods are affine when their threads' network groups meet. */
module NumafastServer {
  import opened Chains
  import opened UnionFind
  import opened AffinityReply

  // the group id the kernel interface returns for a thread without a group
  const NO_GROUP := -1

  datatype PodInfo = PodInfo(uid: string, tids: seq<int>, gids: seq<int>)

  /** A real group of one pod is a group or a thread of the other. */
  ghost predicate GroupsMeet(p1: PodInfo, p2: PodInfo) {
    Reaches(p1, p2) || Reaches(p2, p1)
  }

  ghost predicate Reaches(p: PodInfo, q: PodInfo) {
    exists g :: g in p.gids && g != NO_GROUP && (g in q.gids || g in q.tids)
  }

  ghost function Affine(infos: seq<PodInfo>): (e: Edges)
    ensures SymmetricBelow(e, |infos|)
  {
    set a: nat, b: nat | a < |infos| && b < |infos| && GroupsMeet(infos[a], infos[b]) :: (a, b)
  }

  /** Two pods are linked exactly when a group other than -1 of one is a group or a thread of the other. */
  lemma {:induction false} AffineExactly(infos: seq<PodInfo>, a: nat, b: nat)
    requires a < |infos| && b < |infos|
    ensures (a, b) in Affine(infos)
            <==> exists g :: g != -1 && ((g in infos[a].gids && (g in infos[b].gids || g in infos[b].tids))
                                         || (g in infos[b].gids && g in infos[a].tids))
  {
    var p, q := infos[a], infos[b];
    if g :| g in q.gids && g != NO_GROUP && (g in p.gids || g in p.tids) {
      assert Reaches(q, p);
    }
    if g :| g != -1 && ((g in p.gids && (g in q.gids || g in q.tids)) || (g in q.gids && g in p.tids)) {
      assert Reaches(p, q) || Reaches(q, p);
    }
  }

  /** Whether some real id of `gids` occurs in `ids`. */
  method SomeGroupIn(gids: seq<int>, ids: seq<int>) returns (b: bool)
    ensures b <==> exists g :: g in gids && g != NO_GROUP && g in ids
  {
    for i := 0 to |gids|
      invariant forall k :: 0 <= k < i && gids[k] != NO_GROUP ==> gids[k] !in ids
    {
      if gids[i] == NO_GROUP {
        continue;
      }
      for j := 0 to |ids|
        invariant forall l :: 0 <= l < j ==> ids[l] != gids[i]
      {
        if gids[i] == ids[j] {
          assert gids[i] in gids && gids[i] in ids;
          return true;
        }
      }
    }
    return false;
  }

  /** Three searches decide whether the groups meet: group with group, group with thread, and back. */
  method HasPodAffinity(p1: PodInfo, p2: PodInfo) returns (b: bool)
    ensures b <==> GroupsMeet(p1, p2)
  {
    b := SomeGroupIn(p1.gids, p2.gids);
    if b { return; }
    b := SomeGroupIn(p1.gids, p2.tids);
    if b { return; }
    b := SomeGroupIn(p2.gids, p1.tids);
  }

  /** The kernel's answers for the threads of one pod, in thread order. */
  method CalculateGid(tids: seq<int>, getGid: int -> int) returns (gids: seq<int>)
    ensures |gids| == |tids| && forall i :: 0 <= i < |tids| ==> gids[i] == getGid(tids[i])
  {
    gids := [];
    for i := 0 to |tids|
      invariant |gids| == i && forall k :: 0 <= k < i ==> gids[k] == getGid(tids[k])
    {
      gids := gids + [getGid(tids[i])];
    }
  }

  ghost predicate InfosFor(infos: seq<PodInfo>, pods: seq<Pod>, tids: seq<seq<int>>, getGid: int -> int)
    requires |tids| == |pods|
  {
    && |infos| == |pods|
    && forall i :: 0 <= i < |pods| ==>
      && infos[i].uid == pods[i].uid && infos[i].tids == tids[i] && |infos[i].gids| == |tids[i]|
      && forall k :: 0 <= k < |tids[i]| ==> infos[i].gids[k] == getGid(tids[i][k])
  }

  class Server {
    const forest: DisjointSets
    var numaNums: nat

    constructor (capacity: nat)
      ensures forest.Valid() && fresh(forest) && fresh(forest.fa) && forest.fa.Length == capacity && numaNums == 0
    {
      forest := new DisjointSets(capacity);
      numaNums := 0;
    }

    /** The same double loop over a different adjacency test. */
    method GroupPods(infos: seq<PodInfo>)
      requires |infos| < forest.fa.Length
      modifies forest, forest.fa
      ensures Joined(forest, |infos|, Affine(infos))
    {
      var n := |infos|;
      ghost var e := Affine(infos);
      StartForest(forest, n, e);
      for i := 0 to n
        invariant Joined(forest, n, Before(e, i, 0))
      {
        BeforeRow(e, i, n);
        for j := i + 1 to n
          invariant Joined(forest, n, Before(e, i, j))
        {
          var affine := HasPodAffinity(infos[i], infos[j]);
          JoinIfAffine(forest, n, i, j, affine, e);
        }
      }
      ForestComplete(forest, n, e);
    }

    method GetPodAffinity(pods: seq<Pod>, tids: seq<seq<int>>, getGid: int -> int)
      returns (out: Outcome, ghost infos: seq<PodInfo>)
      requires |pods| < forest.fa.Length && |tids| == |pods|
      modifies forest, forest.fa
      ensures InfosFor(infos, pods, tids, getGid)
      ensures out.DivideByZero? <==> numaNums == 0 && SomePartner(Affine(infos), |pods|)
      ensures numaNums == 0 && out.Reply? ==> out.groups == []
      ensures numaNums > 0 && DistinctUids(pods) ==> CorrectReply(out.groups, pods, Affine(infos), numaNums)
    {
      var ps: seq<PodInfo> := [];
      var uids: seq<string> := [];
      for i := 0 to |pods|
        invariant |uids| == i && forall k :: 0 <= k < i ==> uids[k] == pods[k].uid
        invariant InfosFor(ps, pods[..i], tids[..i], getGid)
      {
        var gids := CalculateGid(tids[i], getGid);
        ps := ps + [PodInfo(pods[i].uid, tids[i], gids)];
        uids := uids + [pods[i].uid];
      }
      infos := ps;
      GroupPods(ps);
      ghost var reps := forest.Reps()[..|pods|];
      out := GetPodsAffinity(forest, uids, pods, numaNums);
      ghost var order :| Enumerates(order, reps) && out == OutcomeIn(order, reps, pods, numaNums);
      DividesByZeroExactly(order, reps, pods, Affine(ps), numaNums);
      if numaNums > 0 && DistinctUids(pods) {
        ReplyIsCorrect(order, reps, pods, Affine(ps), numaNums);
      }
    }
  }
}
