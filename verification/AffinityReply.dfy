/** From the union-find array to the groups of the reply; both servers run this code. */
module AffinityReply {
  import opened Chains
  import opened Sequences
  import opened UnionFind
  import opened RoundRobin

  datatype Pod = Pod(uid: string, podName: string, podNamespace: string, containerIds: seq<string>)

  datatype AffinityGroup = AffinityGroup(numaNumber: int, pods: seq<Pod>)

  /** The reply, or the integer division by zero that stops the server while it knows no NUMA node. */
  datatype Outcome = Reply(groups: seq<AffinityGroup>) | DivideByZero

  // ---- What a correct reply is, with no reference to how it is computed ----

  ghost predicate HasPartner(e: Edges, n: nat, i: nat) {
    exists j :: 0 <= j < n && j != i && Connected(e, i, j)
  }

  ghost predicate SomePartner(e: Edges, n: nat) {
    exists i :: 0 <= i < n && HasPartner(e, n, i)
  }

  ghost predicate AscendingBelow(m: seq<nat>, n: nat) {
    Ascending(m) && forall k :: 0 <= k < |m| ==> m[k] < n
  }

  function Select(pods: seq<Pod>, m: seq<nat>): (r: seq<Pod>)
    requires forall k :: 0 <= k < |m| ==> m[k] < |pods|
  {
    seq(|m|, k requires 0 <= k < |m| => pods[m[k]])
  }

  /** `ps` are pods of the request, each at most once, in the order of the request. */
  ghost predicate InRequestOrder(ps: seq<Pod>, pods: seq<Pod>) {
    exists m :: AscendingBelow(m, |pods|) && ps == Select(pods, m)
  }

  /** Groups are the components of two or more pods, numbered round robin over the NUMA nodes. */
  ghost predicate CorrectReply(groups: seq<AffinityGroup>, pods: seq<Pod>, e: Edges, numaNums: nat)
    requires numaNums > 0
  {
    && (forall g :: 0 <= g < |groups| ==>
          && |groups[g].pods| >= 2
          && InRequestOrder(groups[g].pods, pods)
          && groups[g].numaNumber == Cycle(g, numaNums))
    && (forall i :: 0 <= i < |pods| ==>
          (HasPartner(e, |pods|, i) <==> exists g :: 0 <= g < |groups| && pods[i] in groups[g].pods))
    && (forall g, i, j :: 0 <= g < |groups| && 0 <= i < |pods| && 0 <= j < |pods| && pods[i] in groups[g].pods ==>
          (pods[j] in groups[g].pods <==> Connected(e, i, j)))
    && (forall g, h, p :: 0 <= g < h < |groups| && p in groups[g].pods ==> p !in groups[h].pods)
  }

  ghost predicate DistinctUids(pods: seq<Pod>) {
    forall i, j :: 0 <= i < j < |pods| ==> pods[i].uid != pods[j].uid
  }

  // ---- What the loops compute, for a given order of iteration over the map ----

  /** The request's pods by Uid; a later pod replaces an earlier one of the same Uid. */
  function ByUid(pods: seq<Pod>): (pp: map<string, Pod>)
    ensures forall i :: 0 <= i < |pods| ==> pods[i].uid in pp
    ensures forall u :: u in pp ==> pp[u].uid == u && pp[u] in pods
  {
    if pods == [] then map[]
    else
      var last := pods[|pods| - 1];
      ByUid(pods[..|pods| - 1])[last.uid := last]
  }

  function Members(reps: seq<nat>, g: nat): seq<nat> {
    IndicesOf(reps, g)
  }

  /** The representatives in `order` whose class has at least two members. */
  function Big(order: seq<nat>, reps: seq<nat>): (r: seq<nat>) {
    if order == [] then []
    else
      var init := Big(order[..|order| - 1], reps);
      var g := order[|order| - 1];
      if |Members(reps, g)| < 2 then init else init + [g]
  }

  function Payloads(pods: seq<Pod>, m: seq<nat>): seq<Pod>
    requires forall k :: 0 <= k < |m| ==> m[k] < |pods|
  {
    seq(|m|, k requires 0 <= k < |m| => ByUid(pods)[pods[m[k]].uid])
  }

  function GroupOf(reps: seq<nat>, pods: seq<Pod>, g: nat, number: nat): AffinityGroup
    requires |reps| == |pods|
  {
    IndicesOfCharacter(reps, g);
    assert forall k :: 0 <= k < |Members(reps, g)| ==> Members(reps, g)[k] in Members(reps, g);
    AffinityGroup(number, Payloads(pods, Members(reps, g)))
  }

  function ReplyIn(order: seq<nat>, reps: seq<nat>, pods: seq<Pod>, numaNums: nat): (groups: seq<AffinityGroup>)
    requires |reps| == |pods| && numaNums > 0
  {
    var big := Big(order, reps);
    seq(|big|, k requires 0 <= k < |big| => GroupOf(reps, pods, big[k], Cycle(k, numaNums)))
  }

  function OutcomeIn(order: seq<nat>, reps: seq<nat>, pods: seq<Pod>, numaNums: nat): Outcome
    requires |reps| == |pods|
  {
    if numaNums > 0 then Reply(ReplyIn(order, reps, pods, numaNums))
    else if Big(order, reps) == [] then Reply([])
    else DivideByZero
  }

  /** `order` lists every representative exactly once: any order in which the map may be iterated. */
  ghost predicate Enumerates(order: seq<nat>, reps: seq<nat>) {
    Distinct(order) && forall g :: g in order <==> g in reps
  }

  /** The outcome of some order in which the map may be iterated. */
  ghost predicate SomeOrderGives(out: Outcome, reps: seq<nat>, pods: seq<Pod>, numaNums: nat)
    requires |reps| == |pods|
  {
    exists order :: Enumerates(order, reps) && out == OutcomeIn(order, reps, pods, numaNums)
  }

  // ---- The loops ----

  lemma {:induction false} NoPairJoined(reps: seq<nat>, e: Edges)
    requires forall x :: 0 <= x < |reps| ==> reps[x] == x
    ensures NamesComponents(reps, Before(e, 0, 0))
  {
    DiscreteNamesComponents(reps);
    assert Before(e, 0, 0) == {};
  }

  lemma {:induction false} AllPairsJoined(reps: seq<nat>, e: Edges)
    requires SymmetricBelow(e, |reps|) && NamesComponents(reps, Before(e, |reps|, 0))
    ensures NamesComponents(reps, e)
  {
    forall a, b | 0 <= a < |reps| && 0 <= b < |reps|
      ensures Connected(Before(e, |reps|, 0), a, b) <==> Connected(e, a, b)
    {
      BeforeAllConnects(e, |reps|, a, b);
    }
  }

  /** The forest of a request for n pods, in which the classes are the components of `e`. */
  ghost predicate Joined(ds: DisjointSets, n: nat, e: Edges)
    reads ds, ds.fa
  {
    ds.Valid() && ds.size == n + 1 && NamesComponents(ds.Reps()[..n], e)
  }

  method StartForest(ds: DisjointSets, n: nat, ghost e: Edges)
    requires n < ds.fa.Length
    modifies ds, ds.fa
    ensures Joined(ds, n, Before(e, 0, 0))
  {
    ds.Init(n);
    NoPairJoined(ds.Reps()[..n], e);
  }

  lemma {:induction false} ForestComplete(ds: DisjointSets, n: nat, e: Edges)
    requires SymmetricBelow(e, n) && Joined(ds, n, Before(e, n, 0))
    ensures Joined(ds, n, e)
  {
    AllPairsJoined(ds.Reps()[..n], e);
  }

  /** The body of the servers' double loop: joins the pair (i, j) when it is affine. */
  method JoinIfAffine(ds: DisjointSets, n: nat, i: nat, j: nat, affine: bool, ghost e: Edges)
    requires i < j < n && SymmetricBelow(e, n) && (affine <==> (i, j) in e)
    requires Joined(ds, n, Before(e, i, j))
    modifies ds, ds.fa
    ensures Joined(ds, n, Before(e, i, j + 1))
  {
    BeforeStep(e, i, j);
    if affine {
      ghost var reps := ds.Reps()[..n];
      ds.Join(i, j);
      MergeAddsEdge(reps, ds.Reps()[..n], Before(e, i, j), i, j);
    }
  }

  /** `groups` maps every representative in use to its members, in ascending order. */
  ghost predicate Grouped(groups: map<nat, seq<nat>>, reps: seq<nat>) {
    && (forall g :: g in groups <==> g in reps)
    && (forall g :: g in groups ==> groups[g] == Members(reps, g))
  }

  lemma {:induction false} GroupedStep(groups: map<nat, seq<nat>>, reps: seq<nat>, i: nat)
    requires i < |reps| && Grouped(groups, reps[..i])
    ensures Grouped(groups[reps[i] := (if reps[i] in groups then groups[reps[i]] else []) + [i]], reps[..i + 1])
  {
    var sofar, more, g := reps[..i], reps[..i + 1], reps[i];
    assert more[..i] == sofar && more == sofar + [g];
    if g !in sofar {
      NoMembers(sofar, g);
    }
  }

  lemma {:induction false} NoMembers(reps: seq<nat>, g: nat)
    requires g !in reps
    ensures Members(reps, g) == []
  {
    if reps != [] {
      NoMembers(reps[..|reps| - 1], g);
    }
  }

  /** Appends i to the members of g. */
  method AddMember(groups: map<nat, seq<nat>>, g: nat, i: nat) returns (more: map<nat, seq<nat>>)
    ensures more == groups[g := (if g in groups then groups[g] else []) + [i]]
  {
    more := groups;
    if g !in more {
      more := more[g := []];
    }
    more := more[g := more[g] + [i]];
  }

  /** Collects the indices of each class, compressing paths while it looks them up. */
  method GroupByRepresentative(ds: DisjointSets, n: nat) returns (groups: map<nat, seq<nat>>)
    requires ds.Valid() && n <= ds.size
    modifies ds.fa
    ensures ds.Valid() && ds.Reps() == old(ds.Reps())
    ensures Grouped(groups, ds.Reps()[..n])
  {
    groups := map[];
    ghost var reps := ds.Reps();
    for i := 0 to n
      invariant ds.Valid() && ds.Reps() == reps
      invariant Grouped(groups, reps[..i])
    {
      var g := ds.Find(i);
      GroupedStep(groups, reps, i);
      groups := AddMember(groups, g, i);
    }
  }

  method IndexByUid(pods: seq<Pod>) returns (pp: map<string, Pod>)
    ensures pp == ByUid(pods)
  {
    pp := map[];
    for i := 0 to |pods|
      invariant pp == ByUid(pods[..i])
    {
      assert pods[..i + 1][..i] == pods[..i];
      pp := pp[pods[i].uid := pods[i]];
    }
    assert pods[..|pods|] == pods;
  }

  method GroupEntries(idxs: seq<nat>, uids: seq<string>, pods: seq<Pod>, pp: map<string, Pod>)
    returns (entries: seq<Pod>)
    requires |uids| == |pods| && forall i :: 0 <= i < |pods| ==> uids[i] == pods[i].uid
    requires pp == ByUid(pods) && forall k :: 0 <= k < |idxs| ==> idxs[k] < |pods|
    ensures entries == Payloads(pods, idxs)
  {
    entries := [];
    for l := 0 to |idxs|
      invariant |entries| == l
      invariant forall m :: 0 <= m < l ==> entries[m] == pp[pods[idxs[m]].uid]
    {
      var uid := uids[idxs[l]];
      entries := entries + [Pod(uid, pp[uid].podName, pp[uid].podNamespace, pp[uid].containerIds)];
    }
  }

  lemma {:induction false} MembersInRange(reps: seq<nat>, g: nat)
    ensures AscendingBelow(Members(reps, g), |reps|)
  {
    IndicesOfCharacter(reps, g);
    assert forall k :: 0 <= k < |Members(reps, g)| ==> Members(reps, g)[k] in Members(reps, g);
  }

  /** Builds the reply: the outcome is that of some order in which the map may be iterated. */
  method GetPodsAffinity(ds: DisjointSets, uids: seq<string>, pods: seq<Pod>, numaNums: nat)
    returns (out: Outcome)
    requires ds.Valid() && |pods| <= ds.size
    requires |uids| == |pods| && forall i :: 0 <= i < |pods| ==> uids[i] == pods[i].uid
    modifies ds.fa
    ensures ds.Valid() && ds.Reps() == old(ds.Reps())
    ensures SomeOrderGives(out, ds.Reps()[..|pods|], pods, numaNums)
  {
    var groups := GroupByRepresentative(ds, |pods|);
    var pp := IndexByUid(pods);
    out := BuildReply(groups, ds.Reps()[..|pods|], uids, pods, pp, numaNums);
  }

  /** The loop over the map; `reps` only says what `groups` was built from. */
  method BuildReply(groups: map<nat, seq<nat>>, ghost reps: seq<nat>, uids: seq<string>, pods: seq<Pod>,
                    pp: map<string, Pod>, numaNums: nat)
    returns (out: Outcome)
    requires Grouped(groups, reps) && |reps| == |pods| && pp == ByUid(pods)
    requires |uids| == |pods| && forall i :: 0 <= i < |pods| ==> uids[i] == pods[i].uid
    ensures SomeOrderGives(out, reps, pods, numaNums)
  {
    var answer: seq<AffinityGroup> := [];
    var numaNode: nat := 0;
    ghost var order: seq<nat> := [];
    var remaining := groups.Keys;
    while remaining != {}
      invariant SoFar(order, groups.Keys, remaining, reps, pods, numaNums, answer, numaNode)
      decreases |remaining|
    {
      var g :| g in remaining;
      var ok, more, next := VisitGroup(g, groups[g], uids, pods, pp, numaNums, answer, numaNode,
                                       order, groups.Keys, remaining, reps);
      if !ok {
        order := StopStep(order, groups.Keys, remaining, g, reps, pods, answer, numaNode);
        return DivideByZero;
      }
      order, answer, numaNode := order + [g], more, next;
      remaining := remaining - {g};
    }
    out := Reply(answer);
  }

  /** One round of the loop over the map; not ok means the division by zero. */
  method VisitGroup(g: nat, idxs: seq<nat>, uids: seq<string>, pods: seq<Pod>, pp: map<string, Pod>, numaNums: nat,
                    answer: seq<AffinityGroup>, numaNode: nat,
                    ghost order: seq<nat>, ghost keys: set<nat>, ghost remaining: set<nat>, ghost reps: seq<nat>)
    returns (ok: bool, more: seq<AffinityGroup>, next: nat)
    requires |reps| == |pods| && pp == ByUid(pods) && g in remaining && idxs == Members(reps, g)
    requires |uids| == |pods| && forall i :: 0 <= i < |pods| ==> uids[i] == pods[i].uid
    requires SoFar(order, keys, remaining, reps, pods, numaNums, answer, numaNode)
    ensures ok <==> |Members(reps, g)| < 2 || numaNums > 0
    ensures ok ==> SoFar(order + [g], keys, remaining - {g}, reps, pods, numaNums, more, next)
  {
    ok, more, next := true, answer, numaNode;
    if |idxs| < 2 {
      SkipStep(order, keys, remaining, g, reps, pods, numaNums, answer, numaNode);
    } else if numaNums == 0 {
      ok := false;
    } else {
      MembersInRange(reps, g);
      AddStep(order, keys, remaining, g, reps, pods, numaNums, answer, numaNode);
      next := Advance(numaNode, numaNums, |answer|);
      var entries := GroupEntries(idxs, uids, pods, pp);
      more := answer + [AffinityGroup(numaNode, entries)];
    }
  }

  /** The state of the loop over the map after the groups in `order`. */
  ghost predicate SoFar(order: seq<nat>, keys: set<nat>, remaining: set<nat>, reps: seq<nat>, pods: seq<Pod>,
                        numaNums: nat, answer: seq<AffinityGroup>, numaNode: nat)
    requires |reps| == |pods|
  {
    && Visits(order, keys, remaining)
    && OutcomeIn(order, reps, pods, numaNums) == Reply(answer)
    && numaNode == if numaNums == 0 then 0 else Cycle(|answer|, numaNums)
  }

  lemma {:induction false} SkipStep(order: seq<nat>, keys: set<nat>, remaining: set<nat>, g: nat, reps: seq<nat>,
                                    pods: seq<Pod>, numaNums: nat, answer: seq<AffinityGroup>, numaNode: nat)
    requires |reps| == |pods| && g in remaining && |Members(reps, g)| < 2
    requires SoFar(order, keys, remaining, reps, pods, numaNums, answer, numaNode)
    ensures SoFar(order + [g], keys, remaining - {g}, reps, pods, numaNums, answer, numaNode)
  {
    VisitStep(order, keys, remaining, g);
    OutcomeStep(order, g, reps, pods, numaNums);
  }

  lemma {:induction false} AddStep(order: seq<nat>, keys: set<nat>, remaining: set<nat>, g: nat, reps: seq<nat>,
                                   pods: seq<Pod>, numaNums: nat, answer: seq<AffinityGroup>, numaNode: nat)
    requires |reps| == |pods| && g in remaining && |Members(reps, g)| >= 2 && numaNums > 0
    requires SoFar(order, keys, remaining, reps, pods, numaNums, answer, numaNode)
    ensures SoFar(order + [g], keys, remaining - {g}, reps, pods, numaNums,
                  answer + [GroupOf(reps, pods, g, numaNode)], Cycle(|answer| + 1, numaNums))
  {
    VisitStep(order, keys, remaining, g);
    OutcomeStep(order, g, reps, pods, numaNums);
  }

  lemma {:induction false} StopStep(order: seq<nat>, keys: set<nat>, remaining: set<nat>, g: nat, reps: seq<nat>,
                                    pods: seq<Pod>, answer: seq<AffinityGroup>, numaNode: nat)
    returns (full: seq<nat>)
    requires |reps| == |pods| && g in remaining && |Members(reps, g)| >= 2
    requires SoFar(order, keys, remaining, reps, pods, 0, answer, numaNode)
    ensures Visits(full, keys, {}) && OutcomeIn(full, reps, pods, 0) == DivideByZero
  {
    VisitStep(order, keys, remaining, g);
    OutcomeStep(order, g, reps, pods, 0);
    full := CompleteVisit(order + [g], keys, remaining - {g}, reps);
  }

  ghost predicate Visits(order: seq<nat>, keys: set<nat>, remaining: set<nat>) {
    Distinct(order) && remaining <= keys && forall g :: g in order <==> g in keys && g !in remaining
  }

  lemma {:induction false} VisitStep(order: seq<nat>, keys: set<nat>, remaining: set<nat>, g: nat)
    requires Visits(order, keys, remaining) && g in remaining
    ensures Visits(order + [g], keys, remaining - {g})
  {
    assert forall i :: 0 <= i < |order| ==> order[i] in order;
  }

  lemma {:induction false} BigStep(order: seq<nat>, g: nat, reps: seq<nat>)
    ensures Big(order + [g], reps) == if |Members(reps, g)| < 2 then Big(order, reps) else Big(order, reps) + [g]
  {
    assert (order + [g])[..|order|] == order;
  }

  lemma {:induction false} ReplyStep(order: seq<nat>, g: nat, reps: seq<nat>, pods: seq<Pod>, numaNums: nat)
    requires |reps| == |pods| && numaNums > 0
    ensures ReplyIn(order + [g], reps, pods, numaNums) ==
            var groups := ReplyIn(order, reps, pods, numaNums);
            if |Members(reps, g)| < 2 then groups
            else groups + [GroupOf(reps, pods, g, Cycle(|groups|, numaNums))]
  {
    BigStep(order, g, reps);
  }

  lemma {:induction false} OutcomeStep(order: seq<nat>, g: nat, reps: seq<nat>, pods: seq<Pod>, numaNums: nat)
    requires |reps| == |pods| && OutcomeIn(order, reps, pods, numaNums).Reply?
    ensures OutcomeIn(order + [g], reps, pods, numaNums) ==
            var groups := OutcomeIn(order, reps, pods, numaNums).groups;
            if |Members(reps, g)| < 2 then Reply(groups)
            else if numaNums == 0 then DivideByZero
            else Reply(groups + [GroupOf(reps, pods, g, Cycle(|groups|, numaNums))])
  {
    BigStep(order, g, reps);
    if numaNums > 0 {
      ReplyStep(order, g, reps, pods, numaNums);
    }
  }

  /** Extends a partial iteration that already met a big group to some full one. */
  lemma {:induction false} CompleteVisit(order: seq<nat>, keys: set<nat>, remaining: set<nat>, reps: seq<nat>)
    returns (full: seq<nat>)
    requires Visits(order, keys, remaining) && Big(order, reps) != []
    ensures Visits(full, keys, {}) && Big(full, reps) != []
    decreases |remaining|
  {
    full := order;
    if remaining != {} {
      var g :| g in remaining;
      VisitStep(order, keys, remaining, g);
      assert (order + [g])[..|order|] == order;
      full := CompleteVisit(order + [g], keys, remaining - {g}, reps);
    }
  }

  // ---- Every order gives a correct reply ----

  lemma {:induction false} BigCharacter(order: seq<nat>, reps: seq<nat>)
    requires Distinct(order)
    ensures Distinct(Big(order, reps))
    ensures forall g :: g in Big(order, reps) <==> g in order && |Members(reps, g)| >= 2
  {
    if order != [] {
      var init := order[..|order| - 1];
      BigCharacter(init, reps);
      assert order == init + [order[|order| - 1]];
      assert forall k :: 0 <= k < |Big(init, reps)| ==> Big(init, reps)[k] in Big(init, reps);
    }
  }

  lemma {:induction false} TwoMembers(reps: seq<nat>, g: nat)
    ensures |Members(reps, g)| >= 2 <==> exists i, j :: 0 <= i < j < |reps| && reps[i] == reps[j] == g
  {
    var m := Members(reps, g);
    IndicesOfCharacter(reps, g);
    if |m| >= 2 {
      assert m[0] in m && m[1] in m;
    }
    if i, j :| 0 <= i < j < |reps| && reps[i] == reps[j] == g {
      assert i in m && j in m;
    }
  }

  lemma {:induction false} OwnPayload(pods: seq<Pod>, i: nat)
    requires i < |pods|
    requires forall j :: i < j < |pods| ==> pods[j].uid != pods[i].uid
    ensures ByUid(pods)[pods[i].uid] == pods[i]
  {
    if i < |pods| - 1 {
      OwnPayload(pods[..|pods| - 1], i);
    }
  }

  /** Pods with equal Uids are equal. */
  ghost predicate UidsMeanPods(pods: seq<Pod>) {
    forall i, j :: 0 <= i < |pods| && 0 <= j < |pods| && pods[i].uid == pods[j].uid ==> pods[i] == pods[j]
  }

  /** The payloads are those of the requested pods for all positions exactly when equal Uids mean equal pods. */
  lemma {:induction false} PayloadsFaithful(pods: seq<Pod>)
    ensures (forall i :: 0 <= i < |pods| ==> ByUid(pods)[pods[i].uid] == pods[i])
            <==> UidsMeanPods(pods)
  {
    var pp := ByUid(pods);
    assert forall i :: 0 <= i < |pods| ==> pods[i].uid in pp;
    if UidsMeanPods(pods) {
      forall i | 0 <= i < |pods|
        ensures pp[pods[i].uid] == pods[i]
      {
        var j :| 0 <= j < |pods| && pods[j] == pp[pods[i].uid];
      }
    }
  }

  lemma {:induction false} GroupIsSelection(reps: seq<nat>, pods: seq<Pod>, g: nat, number: nat)
    requires |reps| == |pods| && DistinctUids(pods)
    ensures AscendingBelow(Members(reps, g), |pods|)
    ensures GroupOf(reps, pods, g, number).pods == Select(pods, Members(reps, g))
  {
    var m := Members(reps, g);
    MembersInRange(reps, g);
    forall k | 0 <= k < |m|
      ensures ByUid(pods)[pods[m[k]].uid] == pods[m[k]]
    {
      OwnPayload(pods, m[k]);
    }
  }

  lemma {:induction false} SelectContains(pods: seq<Pod>, m: seq<nat>, i: nat)
    requires DistinctUids(pods) && i < |pods| && forall k :: 0 <= k < |m| ==> m[k] < |pods|
    ensures pods[i] in Select(pods, m) <==> i in m
  {
    var ps := Select(pods, m);
    if k :| 0 <= k < |m| && m[k] == i {
      assert ps[k] == pods[i];
    }
    if k :| 0 <= k < |ps| && ps[k] == pods[i] {
      assert pods[m[k]].uid == pods[i].uid;
    }
  }

  /** The pod at position i is in the group of class g exactly when g is its class. */
  lemma {:induction false} GroupMembership(reps: seq<nat>, pods: seq<Pod>, g: nat, number: nat, i: nat)
    requires |reps| == |pods| && DistinctUids(pods) && i < |pods|
    ensures pods[i] in GroupOf(reps, pods, g, number).pods <==> reps[i] == g
  {
    GroupIsSelection(reps, pods, g, number);
    IndicesOfCharacter(reps, g);
    SelectContains(pods, Members(reps, g), i);
  }

  lemma {:induction false} PartnerMeansBig(order: seq<nat>, reps: seq<nat>, e: Edges, i: nat)
    requires Enumerates(order, reps) && NamesComponents(reps, e) && i < |reps|
    ensures HasPartner(e, |reps|, i) <==> reps[i] in Big(order, reps)
  {
    BigCharacter(order, reps);
    TwoMembers(reps, reps[i]);
    if HasPartner(e, |reps|, i) {
      var j :| 0 <= j < |reps| && j != i && Connected(e, i, j);
      assert reps[i] == reps[j];
      if j < i {
        assert reps[j] == reps[i] == reps[i];
      }
    }
    if reps[i] in Big(order, reps) {
      var a, b :| 0 <= a < b < |reps| && reps[a] == reps[b] == reps[i];
      var j := if a == i then b else a;
      assert Connected(e, i, j);
    }
  }

  /** The reply's groups are the components of at least two pods, whatever the iteration order. */
  lemma {:induction false} ReplyIsCorrect(order: seq<nat>, reps: seq<nat>, pods: seq<Pod>, e: Edges, numaNums: nat)
    requires |reps| == |pods| && numaNums > 0
    requires DistinctUids(pods) && Enumerates(order, reps) && NamesComponents(reps, e)
    ensures CorrectReply(ReplyIn(order, reps, pods, numaNums), pods, e, numaNums)
  {
    var groups := ReplyIn(order, reps, pods, numaNums);
    BigCharacter(order, reps);
    GroupsAreClasses(order, reps, pods, numaNums);
    PartneredPodsAppear(order, reps, pods, e, numaNums);
    GroupsAreDisjoint(order, reps, pods, numaNums);
  }

  /** The group of class c: two pods or more, in request order, and exactly those of the class. */
  ghost predicate ClassGroup(ps: seq<Pod>, reps: seq<nat>, pods: seq<Pod>, c: nat)
    requires |reps| == |pods|
  {
    |ps| >= 2 && InRequestOrder(ps, pods) && forall i :: 0 <= i < |pods| ==> (pods[i] in ps <==> reps[i] == c)
  }

  lemma {:induction false} GroupIsClass(reps: seq<nat>, pods: seq<Pod>, c: nat, number: nat)
    requires |reps| == |pods| && DistinctUids(pods) && |Members(reps, c)| >= 2
    ensures ClassGroup(GroupOf(reps, pods, c, number).pods, reps, pods, c)
  {
    GroupIsSelection(reps, pods, c, number);
    forall i | 0 <= i < |pods|
      ensures pods[i] in GroupOf(reps, pods, c, number).pods <==> reps[i] == c
    {
      GroupMembership(reps, pods, c, number, i);
    }
  }

  lemma {:induction false} GroupsAreClasses(order: seq<nat>, reps: seq<nat>, pods: seq<Pod>, numaNums: nat)
    requires |reps| == |pods| && numaNums > 0 && DistinctUids(pods) && Distinct(order)
    ensures forall g :: 0 <= g < |Big(order, reps)| ==>
      ClassGroup(ReplyIn(order, reps, pods, numaNums)[g].pods, reps, pods, Big(order, reps)[g])
  {
    var big := Big(order, reps);
    BigCharacter(order, reps);
    forall g | 0 <= g < |big|
      ensures ClassGroup(ReplyIn(order, reps, pods, numaNums)[g].pods, reps, pods, big[g])
    {
      assert big[g] in big;
      GroupIsClass(reps, pods, big[g], Cycle(g, numaNums));
    }
  }

  lemma {:induction false} PartneredPodsAppear(order: seq<nat>, reps: seq<nat>, pods: seq<Pod>, e: Edges, numaNums: nat)
    requires |reps| == |pods| && numaNums > 0
    requires DistinctUids(pods) && Enumerates(order, reps) && NamesComponents(reps, e)
    ensures forall i :: 0 <= i < |pods| ==>
      (HasPartner(e, |pods|, i) <==>
       exists g :: 0 <= g < |Big(order, reps)| && pods[i] in ReplyIn(order, reps, pods, numaNums)[g].pods)
  {
    var groups := ReplyIn(order, reps, pods, numaNums);
    var big := Big(order, reps);
    GroupsAreClasses(order, reps, pods, numaNums);
    forall i | 0 <= i < |pods|
      ensures HasPartner(e, |pods|, i) <==> exists g :: 0 <= g < |big| && pods[i] in groups[g].pods
    {
      PartnerMeansBig(order, reps, e, i);
      if reps[i] in big {
        var g :| 0 <= g < |big| && big[g] == reps[i];
        assert pods[i] in groups[g].pods;
      }
    }
  }

  lemma {:induction false} ClassesAreDisjoint(a: seq<Pod>, b: seq<Pod>, reps: seq<nat>, pods: seq<Pod>, c: nat, d: nat,
                                              p: Pod)
    requires |reps| == |pods| && ClassGroup(a, reps, pods, c) && ClassGroup(b, reps, pods, d) && c != d && p in a
    ensures p !in b
  {
    var m :| AscendingBelow(m, |pods|) && a == Select(pods, m);
    var k :| 0 <= k < |a| && a[k] == p;
    assert p == pods[m[k]];
  }

  lemma {:induction false} GroupsAreDisjoint(order: seq<nat>, reps: seq<nat>, pods: seq<Pod>, numaNums: nat)
    requires |reps| == |pods| && numaNums > 0 && DistinctUids(pods) && Distinct(order)
    ensures forall g, h, p :: 0 <= g < h < |Big(order, reps)| && p in ReplyIn(order, reps, pods, numaNums)[g].pods ==>
      p !in ReplyIn(order, reps, pods, numaNums)[h].pods
  {
    var groups, big := ReplyIn(order, reps, pods, numaNums), Big(order, reps);
    BigCharacter(order, reps);
    GroupsAreClasses(order, reps, pods, numaNums);
    forall g, h, p | 0 <= g < h < |big| && p in groups[g].pods
      ensures p !in groups[h].pods
    {
      assert big[g] != big[h];
      ClassesAreDisjoint(groups[g].pods, groups[h].pods, reps, pods, big[g], big[h], p);
    }
  }

  /** In a correct reply the numbers of groups on any two NUMA nodes differ by at most one. */
  lemma {:induction false} GroupsBalanced(groups: seq<AffinityGroup>, pods: seq<Pod>, e: Edges, numaNums: nat,
                                          a: nat, b: nat)
    requires a < numaNums && b < numaNums && CorrectReply(groups, pods, e, numaNums)
    ensures -1 <= GroupsOn(groups, a) - GroupsOn(groups, b) <= 1
  {
    GroupsOnIsHits(groups, numaNums, a);
    GroupsOnIsHits(groups, numaNums, b);
    Balanced(|groups|, numaNums, a, b);
  }

  function GroupsOn(groups: seq<AffinityGroup>, numa: nat): nat {
    if groups == [] then 0
    else GroupsOn(groups[..|groups| - 1], numa) + if groups[|groups| - 1].numaNumber == numa then 1 else 0
  }

  lemma {:induction false} GroupsOnIsHits(groups: seq<AffinityGroup>, numaNums: nat, a: nat)
    requires numaNums > 0 && forall g :: 0 <= g < |groups| ==> groups[g].numaNumber == Cycle(g, numaNums)
    ensures GroupsOn(groups, a) == Hits(|groups|, numaNums, a)
  {
    if groups != [] {
      GroupsOnIsHits(groups[..|groups| - 1], numaNums, a);
    }
  }

  /** With no NUMA node known, the server divides by zero exactly when some pod has a partner. */
  lemma {:induction false} DividesByZeroExactly(order: seq<nat>, reps: seq<nat>, pods: seq<Pod>, e: Edges,
                                                numaNums: nat)
    requires |reps| == |pods| && Enumerates(order, reps) && NamesComponents(reps, e)
    ensures OutcomeIn(order, reps, pods, numaNums).DivideByZero?
            <==> numaNums == 0 && SomePartner(e, |pods|)
  {
    var big := Big(order, reps);
    BigCharacter(order, reps);
    forall i | 0 <= i < |pods|
      ensures HasPartner(e, |pods|, i) <==> reps[i] in big
    {
      PartnerMeansBig(order, reps, e, i);
    }
    if big != [] {
      assert big[0] in big && big[0] in reps;
      var i :| 0 <= i < |reps| && reps[i] == big[0];
    }
  }
}
