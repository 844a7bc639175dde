/** Whole updates under the load-balancing policy: which pods share CPUs, and one update from the CPU table on. */
module LoadBalancingRun {
  import opened Sequences
  import opened Text
  import opened Cluster
  import opened CustomResource
  import opened NumaTopology
  import opened NetRelaServer
  import opened LoadBalancer
  import opened RoundRobin

  // ---- Exclusiveness, on indices of the flat list ----

  /** The indices of the pod's slots 0, 1, ..., q-1. */
  function SlotIndices(c: nat, k: nat, q: nat): (r: seq<nat>)
    requires k > 0
    ensures |r| == q
  {
    seq(q, s requires 0 <= s < q => SlotIndex(c, k, s))
  }

  /** The indices of all Guaranteed pods' slots, pod after pod. */
  function AllIndices(ms: seq<PodItem>, k: nat): seq<nat>
    requires k > 0
  {
    if ms == [] then []
    else
      var init, p := ms[..|ms| - 1], ms[|ms| - 1];
      AllIndices(init, k) + if IsGuaranteed(p) then SlotIndices(Cursor(init, k), k, Total(PodJobs(p))) else []
  }

  /** Every Guaranteed pod fits in what is left of its node when its turn comes. */
  ghost predicate AllFit(ms: seq<PodItem>, k: nat)
    requires k > 0
  {
    forall i :: 0 <= i < |ms| && IsGuaranteed(ms[i]) ==> Fits(ms, k, i)
  }

  lemma {:induction false} AllFitStep(ms: seq<PodItem>, k: nat)
    requires k > 0 && ms != []
    ensures AllFit(ms, k)
            <==> AllFit(ms[..|ms| - 1], k) && (IsGuaranteed(ms[|ms| - 1]) ==> Fits(ms, k, |ms| - 1))
  {
    var init := ms[..|ms| - 1];
    forall i | 0 <= i < |init|
      ensures Fits(ms, k, i) == Fits(init, k, i) && ms[i] == init[i]
    {
      assert init[..i] == ms[..i];
    }
  }

  /** a, a+1, ..., a+n-1. */
  function From(a: nat, n: nat): (r: seq<nat>)
    ensures |r| == n && forall i :: 0 <= i < n ==> r[i] == a + i
  {
    seq(n, i => a + i)
  }

  lemma {:induction false} FittingPodIndices(c: nat, k: nat, q: nat)
    requires k > 0 && c + q <= End(c, k)
    ensures From(0, c) + SlotIndices(c, k, q) == From(0, CursorAfter(c, k, q))
  {
    assert CursorAfter(c, k, q) == c + q;
    assert SlotIndices(c, k, q) == From(c, q);
  }

  /** While every pod fits, the pods take the indices one after the other. */
  lemma {:induction false} FittingPodsTakeAPrefix(ms: seq<PodItem>, k: nat)
    requires k > 0 && AllFit(ms, k)
    ensures AllIndices(ms, k) == From(0, Cursor(ms, k))
  {
    if ms != [] {
      var init := ms[..|ms| - 1];
      AllFitStep(ms, k);
      FittingPodsTakeAPrefix(init, k);
      if IsGuaranteed(ms[|ms| - 1]) {
        FittingPodIndices(Cursor(init, k), k, Request(ms, |ms| - 1));
      }
    }
  }

  /** A pod that does not fit gets an index that it, or a pod before it, already has. */
  lemma {:induction false} MisfitRepeats(c: nat, k: nat, q: nat)
    requires k > 0 && c + q > End(c, k)
    ensures !Distinct(From(0, c) + SlotIndices(c, k, q))
  {
    var all, over := From(0, c) + SlotIndices(c, k, q), End(c, k) - c;
    FirstOverflow(c, k);
    SlotBounds(c, k, over);
    assert all[c + over] == SlotIndices(c, k, q)[over] == NodeNo(c, k);
    if NodeNo(c, k) < c {
      assert all[NodeNo(c, k)] == NodeNo(c, k);
    } else {
      assert all[NodeNo(c, k)] == SlotIndices(c, k, q)[NodeNo(c, k) - c] == NodeNo(c, k);
    }
  }

  /** No index is handed out twice, within a pod or across pods, exactly when every Guaranteed pod fits. */
  lemma {:induction false} IndicesExclusiveExactly(ms: seq<PodItem>, k: nat)
    requires k > 0
    ensures Distinct(AllIndices(ms, k)) <==> AllFit(ms, k)
  {
    if ms != [] {
      var init := ms[..|ms| - 1];
      IndicesExclusiveExactly(init, k);
      AllFitStep(ms, k);
      if AllFit(ms, k) {
        FittingPodsTakeAPrefix(ms, k);
      } else if AllFit(init, k) {
        FittingPodsTakeAPrefix(init, k);
        MisfitRepeats(Cursor(init, k), k, Request(ms, |ms| - 1));
      } else {
        assert AllIndices(init, k) <= AllIndices(ms, k);
      }
    }
  }

  // ---- The same on CPU names and on the written texts ----

  /** The CPU names of all Guaranteed pods' slots. */
  function AllPodCpus(ms: seq<PodItem>, cpus: seq<string>, k: nat): seq<string>
    requires k > 0
  {
    if ms == [] then []
    else
      var init, p := ms[..|ms| - 1], ms[|ms| - 1];
      AllPodCpus(init, cpus, k)
      + if IsGuaranteed(p) then PodCpus(cpus, Cursor(init, k), k, 0, Total(PodJobs(p))) else []
  }

  /** `names` are the entries of `cpus` at the given indices. */
  ghost predicate NamesAt(names: seq<string>, cpus: seq<string>, at: seq<nat>) {
    |names| == |at| && forall s :: 0 <= s < |at| ==> at[s] < |cpus| && names[s] == cpus[at[s]]
  }

  lemma {:induction false} PodCpusAt(cpus: seq<string>, c: nat, k: nat, q: nat, s: nat)
    requires k > 0 && s < q
    ensures PodCpus(cpus, c, k, 0, q)[s] == At(cpus, SlotIndex(c, k, s))
  {
    if s < q - 1 {
      PodCpusAt(cpus, c, k, q - 1, s);
    }
  }

  lemma {:induction false} PodNamesAt(cpus: seq<string>, c: nat, k: nat, q: nat)
    requires k > 0 && CursorAfter(c, k, q) <= |cpus|
    ensures NamesAt(PodCpus(cpus, c, k, 0, q), cpus, SlotIndices(c, k, q))
  {
    forall s | 0 <= s < q
      ensures SlotIndices(c, k, q)[s] < |cpus|
      ensures PodCpus(cpus, c, k, 0, q)[s] == cpus[SlotIndices(c, k, q)[s]]
    {
      PodCpusAt(cpus, c, k, q, s);
      SlotInRange(c, k, s, q);
    }
  }

  lemma {:induction false} NamesAtAppend(a: seq<string>, b: seq<string>, cpus: seq<string>, at: seq<nat>, bt: seq<nat>)
    requires NamesAt(a, cpus, at) && NamesAt(b, cpus, bt)
    ensures NamesAt(a + b, cpus, at + bt)
  {
  }

  lemma {:induction false} AllNamesAt(ms: seq<PodItem>, cpus: seq<string>, k: nat)
    requires k > 0 && Cursor(ms, k) <= |cpus|
    ensures NamesAt(AllPodCpus(ms, cpus, k), cpus, AllIndices(ms, k))
  {
    if ms != [] {
      CursorGrows(ms, k, |ms| - 1);
      AllNamesAt(ms[..|ms| - 1], cpus, k);
      AllNamesStep(ms, cpus, k);
    }
  }

  lemma {:induction false} AllNamesStep(ms: seq<PodItem>, cpus: seq<string>, k: nat)
    requires k > 0 && ms != [] && Cursor(ms, k) <= |cpus|
    requires NamesAt(AllPodCpus(ms[..|ms| - 1], cpus, k), cpus, AllIndices(ms[..|ms| - 1], k))
    ensures NamesAt(AllPodCpus(ms, cpus, k), cpus, AllIndices(ms, k))
  {
    var init, c, q := ms[..|ms| - 1], Cursor(ms[..|ms| - 1], k), Request(ms, |ms| - 1);
    if IsGuaranteed(ms[|ms| - 1]) {
      PodNamesAt(cpus, c, k, q);
      NamesAtAppend(AllPodCpus(init, cpus, k), PodCpus(cpus, c, k, 0, q), cpus,
                    AllIndices(init, k), SlotIndices(c, k, q));
    } else {
      assert AllPodCpus(ms, cpus, k) == AllPodCpus(init, cpus, k) && AllIndices(ms, k) == AllIndices(init, k);
    }
  }

  lemma {:induction false} NamesDistinctExactly(names: seq<string>, cpus: seq<string>, at: seq<nat>)
    requires NamesAt(names, cpus, at) && Distinct(cpus)
    ensures Distinct(names) <==> Distinct(at)
  {
    forall s, t | 0 <= s < t < |at|
      ensures names[s] == names[t] <==> at[s] == at[t]
    {
      if names[s] == names[t] {
        DistinctAt(cpus, at[s], at[t]);
      }
    }
  }

  /** No CPU name goes to two slots of Guaranteed pods exactly when every such pod fits. */
  lemma {:induction false} NamesExclusiveExactly(ms: seq<PodItem>, cpus: seq<string>, k: nat)
    requires k > 0 && Cursor(ms, k) <= |cpus| && Distinct(cpus)
    ensures Distinct(AllPodCpus(ms, cpus, k)) <==> AllFit(ms, k)
  {
    AllNamesAt(ms, cpus, k);
    NamesDistinctExactly(AllPodCpus(ms, cpus, k), cpus, AllIndices(ms, k));
    IndicesExclusiveExactly(ms, k);
  }

  /** The cpusets of all containers of the written entries, in order. */
  function Written(entries: seq<PodAffinity>): seq<seq<string>> {
    if entries == [] then []
    else Written(entries[..|entries| - 1]) + UsedByEach(entries[|entries| - 1].containers)
  }

  lemma {:induction false} WrittenNames(ms: seq<PodItem>, cpus: seq<string>, k: nat, numas: nat)
    requires k > 0 && numas > 0 && AllReal(cpus) && Cursor(ms, k) <= |cpus|
    ensures Concat(Written(Entries(ms, cpus, k, numas))) == AllPodCpus(ms, cpus, k)
  {
    if ms == [] {
      assert Written([]) == [];
    } else {
      CursorGrows(ms, k, |ms| - 1);
      WrittenNames(ms[..|ms| - 1], cpus, k, numas);
      WrittenStep(ms, cpus, k, numas);
    }
  }

  lemma {:induction false} WrittenStep(ms: seq<PodItem>, cpus: seq<string>, k: nat, numas: nat)
    requires k > 0 && numas > 0 && AllReal(cpus) && ms != [] && Cursor(ms, k) <= |cpus|
    requires var init := ms[..|ms| - 1];
             Concat(Written(Entries(init, cpus, k, numas))) == AllPodCpus(init, cpus, k)
    ensures Concat(Written(Entries(ms, cpus, k, numas))) == AllPodCpus(ms, cpus, k)
  {
    var init, last := ms[..|ms| - 1], LastEntry(ms, cpus, k, numas);
    var written := Written(Entries(init, cpus, k, numas));
    ConcatSplit(written, UsedByEach(last.containers));
    LastEntryNames(ms, cpus, k, numas);
    assert Entries(ms, cpus, k, numas) == Entries(init, cpus, k, numas) + [last];
    assert Written(Entries(ms, cpus, k, numas)) == written + UsedByEach(last.containers);
  }

  lemma {:induction false} LastEntryNames(ms: seq<PodItem>, cpus: seq<string>, k: nat, numas: nat)
    requires k > 0 && numas > 0 && AllReal(cpus) && ms != [] && Cursor(ms, k) <= |cpus|
    ensures var init, p := ms[..|ms| - 1], ms[|ms| - 1];
            Concat(UsedByEach(LastEntry(ms, cpus, k, numas).containers))
            == if IsGuaranteed(p) then PodCpus(cpus, Cursor(init, k), k, 0, Total(PodJobs(p))) else []
  {
    var c, p := Cursor(ms[..|ms| - 1], k), ms[|ms| - 1];
    if IsGuaranteed(p) {
      RealAvoidsComma(cpus);
      RealNoneBlank(PodJobs(p), cpus, c, k);
      PodTextsReadBack(PodJobs(p), cpus, c, k);
    } else {
      assert UsedByEach([]) == [];
    }
  }

  /** No CPU is in two written cpusets, or twice in one. */
  ghost predicate Exclusive(entries: seq<PodAffinity>) {
    var written := Written(entries);
    (forall c :: 0 <= c < |written| ==> Distinct(written[c])) && PairwiseDisjoint(written)
  }

  /** The written cpusets share no CPU, within a container or across them, exactly when every Guaranteed pod fits. */
  lemma {:induction false} WrittenExclusiveExactly(ms: seq<PodItem>, cpus: seq<string>, k: nat, numas: nat)
    requires k > 0 && numas > 0 && AllReal(cpus) && Distinct(cpus) && Cursor(ms, k) <= |cpus|
    ensures Exclusive(Entries(ms, cpus, k, numas)) <==> AllFit(ms, k)
  {
    WrittenNames(ms, cpus, k, numas);
    DistinctConcat(Written(Entries(ms, cpus, k, numas)));
    NamesExclusiveExactly(ms, cpus, k);
  }

  // ---- Whether a pod sent to a node meets a Guaranteed pod there ----

  lemma {:induction false} SlotIndicesCover(c: nat, k: nat, q: nat, x: nat)
    requires k > 0
    ensures x in SlotIndices(c, k, q) ==> x < CursorAfter(c, k, q)
    ensures c <= x < CursorAfter(c, k, q) ==> x in SlotIndices(c, k, q)
  {
    if x in SlotIndices(c, k, q) {
      var s :| 0 <= s < q && SlotIndices(c, k, q)[s] == x;
      SlotInRange(c, k, s, q);
    }
    if c <= x < CursorAfter(c, k, q) {
      assert SlotIndices(c, k, q)[x - c] == x;
    }
  }

  /** Fitting or not, the Guaranteed pods' indices are exactly those below the cursor. */
  lemma {:induction false} IndicesCover(ms: seq<PodItem>, k: nat, x: nat)
    requires k > 0
    ensures x in AllIndices(ms, k) <==> x < Cursor(ms, k)
  {
    if ms != [] {
      var init := ms[..|ms| - 1];
      IndicesCover(init, k, x);
      SlotIndicesCover(Cursor(init, k), k, Request(ms, |ms| - 1), x);
      CursorGrows(ms, k, |init|);
    }
  }

  lemma {:induction false} NamesCover(ms: seq<PodItem>, cpus: seq<string>, k: nat, p: nat)
    requires k > 0 && p < Cursor(ms, k) <= |cpus|
    ensures cpus[p] in AllPodCpus(ms, cpus, k)
  {
    AllNamesAt(ms, cpus, k);
    IndicesCover(ms, k, p);
    var s :| 0 <= s < |AllIndices(ms, k)| && AllIndices(ms, k)[s] == p;
    assert AllPodCpus(ms, cpus, k)[s] == cpus[p];
  }

  lemma {:induction false} NameHasIndex(ms: seq<PodItem>, cpus: seq<string>, k: nat, x: string) returns (p: nat)
    requires k > 0 && Cursor(ms, k) <= |cpus| && x in AllPodCpus(ms, cpus, k)
    ensures p < Cursor(ms, k) && x == cpus[p]
  {
    AllNamesAt(ms, cpus, k);
    var s :| 0 <= s < |AllPodCpus(ms, cpus, k)| && AllPodCpus(ms, cpus, k)[s] == x;
    p := AllIndices(ms, k)[s];
    IndicesCover(ms, k, p);
  }

  /** Some CPU of the node is in a written cpuset. */
  ghost predicate Taken(entries: seq<PodAffinity>, node: NumaNode) {
    Overlap(CpuNames(node), Concat(Written(entries)))
  }

  lemma {:induction false} NodeOfTakenCpu(ms: seq<PodItem>, nodes: seq<NumaNode>, k: nat, n: nat, x: string, first: nat)
    requires EqualNodes(nodes, k) && Cursor(ms, k) <= |AllCpus(nodes)| && n < |nodes| && first == n * k
    requires x in CpuNames(nodes[n]) && x in AllPodCpus(ms, AllCpus(nodes), k)
    ensures first < Cursor(ms, k)
  {
    var p := NameHasIndex(ms, AllCpus(nodes), k, x);
    OnNodeByName(nodes, k, p, n);
    LapsTimes(p, k);
  }

  lemma {:induction false} FirstCpuTaken(ms: seq<PodItem>, nodes: seq<NumaNode>, k: nat, n: nat, first: nat)
    returns (x: string)
    requires EqualNodes(nodes, k) && Cursor(ms, k) <= |AllCpus(nodes)| && n < |nodes| && first == n * k
    requires first < Cursor(ms, k)
    ensures x in CpuNames(nodes[n]) && x in AllPodCpus(ms, AllCpus(nodes), k)
  {
    IndexOnNode(nodes, k, n, 0, first);
    NamesCover(ms, AllCpus(nodes), k, first);
    x := CpuNames(nodes[n])[0];
  }

  lemma {:induction false} FirstCpuDecides(ms: seq<PodItem>, nodes: seq<NumaNode>, k: nat, n: nat, first: nat)
    requires EqualNodes(nodes, k) && Cursor(ms, k) <= |AllCpus(nodes)| && n < |nodes| && first == n * k
    ensures Overlap(CpuNames(nodes[n]), AllPodCpus(ms, AllCpus(nodes), k)) <==> first < Cursor(ms, k)
  {
    if x :| x in CpuNames(nodes[n]) && x in AllPodCpus(ms, AllCpus(nodes), k) {
      NodeOfTakenCpu(ms, nodes, k, n, x, first);
    }
    if first < Cursor(ms, k) {
      var x := FirstCpuTaken(ms, nodes, k, n, first);
    }
  }

  lemma {:induction false} TakenByNames(entries: seq<PodAffinity>, node: NumaNode, names: seq<string>)
    requires Concat(Written(entries)) == names
    ensures Taken(entries, node) <==> Overlap(CpuNames(node), names)
  {
  }

  /** A node holds a CPU of a Guaranteed pod exactly when its first CPU is below the cursor. */
  lemma {:induction false} NodeTakenExactly(ms: seq<PodItem>, nodes: seq<NumaNode>, k: nat, n: nat)
    requires EqualNodes(nodes, k) && RealNames(AllCpus(nodes)) && Cursor(ms, k) <= |AllCpus(nodes)| && n < |nodes|
    ensures Taken(Entries(ms, AllCpus(nodes), k, |nodes|), nodes[n]) <==> n * k < Cursor(ms, k)
  {
    var entries, names := Entries(ms, AllCpus(nodes), k, |nodes|), AllPodCpus(ms, AllCpus(nodes), k);
    WrittenNames(ms, AllCpus(nodes), k, |nodes|);
    TakenByNames(entries, nodes[n], names);
    FirstCpuDecides(ms, nodes, k, n, n * k);
  }

  /** No two pods that are not Guaranteed are sent to one node. */
  ghost predicate Apart(entries: seq<PodAffinity>, ms: seq<PodItem>, numas: nat)
    requires |entries| == |ms|
  {
    forall a: nat :: a < numas ==> SentTo(ms, entries, a) <= 1
  }

  /** The pods that are not Guaranteed are kept apart exactly when there are no more of them than nodes. */
  lemma {:induction false} OthersApartExactly(ms: seq<PodItem>, cpus: seq<string>, k: nat, numas: nat)
    requires k > 0 && 0 < numas <= 0x8000_0000
    ensures Apart(Entries(ms, cpus, k, numas), ms, numas) <==> Others(ms) <= numas
  {
    var entries := Entries(ms, cpus, k, numas);
    OneLap(Others(ms), numas);
    forall a: nat | a < numas
      ensures SentTo(ms, entries, a) == Laps(Others(ms), numas) + if a < Cycle(Others(ms), numas) then 1 else 0
    {
      SentToIsHits(ms, cpus, k, numas, a);
      HitsByLaps(Others(ms), numas, a);
    }
    var first: nat := 0;
    assert Others(ms) > numas ==> SentTo(ms, entries, first) > 1;
  }

  lemma {:induction false} OneLap(t: nat, n: nat)
    requires n > 0
    ensures t <= n ==> Laps(t, n) == (if t == n then 1 else 0) && (t == n ==> Cycle(t, n) == 0)
    ensures t > n ==> Laps(t, n) > 1 || (Laps(t, n) == 1 && Cycle(t, n) > 0)
  {
    if t >= n {
      assert Laps(t, n) == Laps(t - n, n) + 1 && Cycle(t, n) == Cycle(t - n, n);
    }
  }

  // ---- Machines whose nodes all have the same number of CPUs ----

  ghost predicate Even(nodeOf: seq<int>, maxNode: nat) {
    !Empty(nodeOf, 0) && forall i :: 0 <= i <= maxNode ==> |IndicesOf(nodeOf, i)| == |IndicesOf(nodeOf, 0)|
  }

  /** On such a machine the server's messages are what the locality and exclusiveness results ask for. */
  lemma {:induction false} EvenMachine(nodeOf: seq<int>, maxNode: nat)
    requires Even(nodeOf, maxNode)
    ensures var nodes := NodeMessages(nodeOf, maxNode);
            && PerNode(nodes) == |IndicesOf(nodeOf, 0)| && |AllCpus(nodes)| == |nodes| * PerNode(nodes)
            && EqualNodes(nodes, PerNode(nodes)) && RealNames(AllCpus(nodes))
  {
    var nodes, k := NodeMessages(nodeOf, maxNode), |IndicesOf(nodeOf, 0)|;
    forall i | 0 <= i < |nodes|
      ensures |CpuNames(nodes[i])| == k && !Empty(nodeOf, i) && AllReal(CpuNames(nodes[i]))
    {
      CpuNamesOfMessage(nodeOf, i);
      NodesWithCpusHaveRealNames(nodeOf, i);
    }
    EqualSizes(nodes, k);
    AllCpusDistinctExactly(nodeOf, maxNode);
    AllCpusReal(nodes);
  }

  /** The allocator's CPU count per node is the true one when all nodes have equally many. */
  lemma {:induction false} EqualSizes(nodes: seq<NumaNode>, k: nat)
    requires |nodes| > 0 && k > 0 && forall i :: 0 <= i < |nodes| ==> |CpuNames(nodes[i])| == k
    ensures PerNode(nodes) == k && |AllCpus(nodes)| == |nodes| * k
  {
    FlatListLength(nodes, k);
    DivModUnique(|AllCpus(nodes)|, |nodes|, k, 0);
  }

  lemma {:induction false} AllCpusReal(nodes: seq<NumaNode>)
    requires forall i :: 0 <= i < |nodes| ==> AllReal(CpuNames(nodes[i]))
    ensures AllReal(AllCpus(nodes))
  {
    RealNamesCharacter(AllCpus(nodes));
    forall x | x in AllCpus(nodes)
      ensures RealName(x)
    {
      ConcatContains(NameLists(nodes), x);
      var i :| 0 <= i < |nodes| && x in CpuNames(nodes[i]);
      RealNamesCharacter(CpuNames(nodes[i]));
    }
  }

  // ---- One update, from the CPU table to the entries ----

  /**
   Entry i of a Guaranteed pod: its number, which is past the nodes when the list was used up before; the CPUs of its
   containers; and when those stay on the node.
   */
  ghost predicate ServedOn(e: PodAffinity, ms: seq<PodItem>, i: nat, nodes: seq<NumaNode>, k: nat)
    requires k > 0 && i < |ms|
  {
    && e.numaNum == NodeNo(Start(ms, k, i), k)
    && (e.numaNum < |nodes| <==> Start(ms, k, i) < |AllCpus(nodes)|)
    && AllServed(e.containers, PodJobs(ms[i])) && AllOnMemory(e.containers, e.numaNum)
    && (Request(ms, i) > 0 ==>
          && 0 <= e.numaNum < |nodes|
          && (StaysOn(e.containers, nodes[e.numaNum]) <==> Fits(ms, k, i) || e.numaNum == 0 || k == 1))
  }

  /** Every container names as many CPUs as it asked for. */
  ghost predicate AllServed(cs: seq<Container>, jobs: seq<Job>) {
    |cs| == |jobs| && forall m :: 0 <= m < |cs| ==> |UsedCpus(cs[m])| == jobs[m].cpus
  }

  ghost predicate AllOnMemory(cs: seq<Container>, numa: int) {
    forall m :: 0 <= m < |cs| ==> cs[m].memset == Itoa(numa)
  }

  ghost predicate EvenlySpread(entries: seq<PodAffinity>, ms: seq<PodItem>, numas: nat)
    requires |entries| == |ms|
  {
    forall a, b :: 0 <= a < numas && 0 <= b < numas ==> SentTo(ms, entries, a) <= SentTo(ms, entries, b) + 1
  }

  /** Every pod that is not Guaranteed is sent to a node, and when it meets a Guaranteed pod or another one there. */
  ghost predicate OthersPlaced(entries: seq<PodAffinity>, ms: seq<PodItem>, nodes: seq<NumaNode>, k: nat)
    requires |entries| == |ms| && k > 0
  {
    && (forall i :: 0 <= i < |ms| && !IsGuaranteed(ms[i]) ==>
          && entries[i].containers == [] && 0 <= entries[i].numaNum < |nodes|
          && (Taken(entries, nodes[entries[i].numaNum]) <==> entries[i].numaNum * k < Cursor(ms, k)))
    && (Apart(entries, ms, |nodes|) <==> Others(ms) <= |nodes|)
  }

  /** What an update achieves on an even machine with k CPUs per node. */
  ghost predicate Outcome(entries: seq<PodAffinity>, ms: seq<PodItem>, nodes: seq<NumaNode>, k: nat)
    requires k > 0
  {
    && |entries| == |ms|
    && (forall i :: 0 <= i < |ms| ==> entries[i].podName == ms[i].name && entries[i].namespace == ms[i].namespace)
    && (forall i :: 0 <= i < |ms| && IsGuaranteed(ms[i]) ==> ServedOn(entries[i], ms, i, nodes, k))
    && (Exclusive(entries) <==> AllFit(ms, k))
    && EvenlySpread(entries, ms, |nodes|) && OthersPlaced(entries, ms, nodes, k)
  }

  lemma {:induction false} NumberInRangeExactly(nodes: seq<NumaNode>, k: nat, c: nat)
    requires EqualNodes(nodes, k) && c <= |AllCpus(nodes)|
    ensures NodeNo(c, k) <= |nodes|
    ensures NodeNo(c, k) < |nodes| <==> c < |AllCpus(nodes)|
  {
    FlatListLength(nodes, k);
    if c < |AllCpus(nodes)| {
      FlatListAt(nodes, k, c);
    } else {
      CycleUnique(c, k, |nodes|, 0);
    }
  }

  lemma {:induction false} EntryIsServed(ms: seq<PodItem>, cpus: seq<string>, k: nat, numas: nat, i: nat)
    requires k > 0 && numas > 0 && AllReal(cpus) && Cursor(ms, k) <= |cpus|
    requires i < |ms| && IsGuaranteed(ms[i])
    ensures AllServed(Entries(ms, cpus, k, numas)[i].containers, PodJobs(ms[i]))
  {
    var jobs, c := PodJobs(ms[i]), Start(ms, k, i);
    GuaranteedEntry(ms, cpus, k, numas, i);
    PodInRange(ms, k, i);
    RealAvoidsComma(cpus);
    RealNoneBlank(jobs, cpus, c, k);
    forall m | 0 <= m < |jobs|
      ensures |UsedCpus(PodContainers(jobs, cpus, c, k)[m])| == jobs[m].cpus
    {
      EntryServesOnList(ms, cpus, k, numas, i, m);
      NoneBlankAt(jobs, cpus, c, k, m);
    }
  }

  lemma {:induction false} NoneBlankAt(jobs: seq<Job>, cpus: seq<string>, c: nat, k: nat, m: nat)
    requires k > 0 && m < |jobs| && NoneBlank(jobs, cpus, c, k)
    ensures !Blank(jobs[m], cpus, c, k, Total(jobs[..m]))
  {
    if m < |jobs| - 1 {
      NoneBlankAt(jobs[..|jobs| - 1], cpus, c, k, m);
      assert jobs[..|jobs| - 1][..m] == jobs[..m];
    }
  }

  lemma {:induction false} EntryNumber(ms: seq<PodItem>, cpus: seq<string>, k: nat, numas: nat, i: nat)
    requires k > 0 && 0 < numas < 0x8000_0000 && i < |ms| && IsGuaranteed(ms[i])
    requires NodeNo(Start(ms, k, i), k) <= numas
    ensures Entries(ms, cpus, k, numas)[i].numaNum == NodeNo(Start(ms, k, i), k)
  {
    GuaranteedEntry(ms, cpus, k, numas, i);
  }

  lemma {:induction false} EntryMemory(ms: seq<PodItem>, cpus: seq<string>, k: nat, numas: nat, i: nat)
    requires k > 0 && numas > 0 && i < |ms| && IsGuaranteed(ms[i])
    ensures AllOnMemory(Entries(ms, cpus, k, numas)[i].containers, NodeNo(Start(ms, k, i), k))
  {
    GuaranteedEntry(ms, cpus, k, numas, i);
    forall m | 0 <= m < |PodJobs(ms[i])|
      ensures PodContainers(PodJobs(ms[i]), cpus, Start(ms, k, i), k)[m].memset == Itoa(NodeNo(Start(ms, k, i), k))
    {
      PodContainersAt(PodJobs(ms[i]), cpus, Start(ms, k, i), k, m);
    }
  }

  lemma {:induction false} EntryIsServedOn(ms: seq<PodItem>, nodes: seq<NumaNode>, k: nat, i: nat)
    requires EqualNodes(nodes, k) && RealNames(AllCpus(nodes)) && |nodes| < 0x8000_0000
    requires i < |ms| && IsGuaranteed(ms[i]) && Cursor(ms, k) <= |AllCpus(nodes)|
    ensures ServedOn(Entries(ms, AllCpus(nodes), k, |nodes|)[i], ms, i, nodes, k)
  {
    CursorGrows(ms, k, i);
    NumberInRangeExactly(nodes, k, Start(ms, k, i));
    EntryNumber(ms, AllCpus(nodes), k, |nodes|, i);
    EntryIsServed(ms, AllCpus(nodes), k, |nodes|, i);
    EntryMemory(ms, AllCpus(nodes), k, |nodes|, i);
    if Request(ms, i) > 0 {
      EntryIsLocalExactly(ms, nodes, k, i);
    }
  }

  lemma {:induction false} SharedEntry(ms: seq<PodItem>, cpus: seq<string>, k: nat, numas: nat, i: nat)
    requires k > 0 && 0 < numas <= 0x8000_0000 && i < |ms| && !IsGuaranteed(ms[i])
    ensures var e := Entries(ms, cpus, k, numas)[i];
            e.containers == [] && e.numaNum == Cycle(Others(ms[..i]), numas)
  {
    EntriesAt(ms, cpus, k, numas, i);
    assert ms[..i + 1][..i] == ms[..i];
    SharedNumber(ms[..i + 1], cpus, k, numas);
  }

  lemma {:induction false} OthersArePlaced(ms: seq<PodItem>, nodes: seq<NumaNode>, k: nat)
    requires EqualNodes(nodes, k) && RealNames(AllCpus(nodes)) && |nodes| < 0x8000_0000
    requires Cursor(ms, k) <= |AllCpus(nodes)|
    ensures OthersPlaced(Entries(ms, AllCpus(nodes), k, |nodes|), ms, nodes, k)
  {
    var entries := Entries(ms, AllCpus(nodes), k, |nodes|);
    forall i | 0 <= i < |ms| && !IsGuaranteed(ms[i])
      ensures entries[i].containers == [] && 0 <= entries[i].numaNum < |nodes|
      ensures Taken(entries, nodes[entries[i].numaNum]) <==> entries[i].numaNum * k < Cursor(ms, k)
    {
      SharedEntry(ms, AllCpus(nodes), k, |nodes|, i);
      NodeTakenExactly(ms, nodes, k, entries[i].numaNum);
    }
    OthersApartExactly(ms, AllCpus(nodes), k, |nodes|);
  }

  lemma {:induction false} EntriesSpread(ms: seq<PodItem>, cpus: seq<string>, k: nat, numas: nat)
    requires k > 0 && 0 < numas <= 0x8000_0000
    ensures EvenlySpread(Entries(ms, cpus, k, numas), ms, numas)
  {
    forall a, b | 0 <= a < numas && 0 <= b < numas
      ensures SentTo(ms, Entries(ms, cpus, k, numas), a) <= SentTo(ms, Entries(ms, cpus, k, numas), b) + 1
    {
      OthersBalanced(ms, cpus, k, numas, a, b);
    }
  }

  lemma {:induction false} OutcomeHolds(ms: seq<PodItem>, nodes: seq<NumaNode>, k: nat)
    requires EqualNodes(nodes, k) && RealNames(AllCpus(nodes)) && |nodes| < 0x8000_0000
    requires Cursor(ms, k) <= |AllCpus(nodes)|
    ensures Outcome(Entries(ms, AllCpus(nodes), k, |nodes|), ms, nodes, k)
  {
    var entries := Entries(ms, AllCpus(nodes), k, |nodes|);
    forall i | 0 <= i < |ms|
      ensures entries[i].podName == ms[i].name && entries[i].namespace == ms[i].namespace
      ensures IsGuaranteed(ms[i]) ==> ServedOn(entries[i], ms, i, nodes, k)
    {
      EntriesAt(ms, AllCpus(nodes), k, |nodes|, i);
      if IsGuaranteed(ms[i]) {
        EntryIsServedOn(ms, nodes, k, i);
      }
    }
    WrittenExclusiveExactly(ms, AllCpus(nodes), k, |nodes|);
    OthersArePlaced(ms, nodes, k);
    EntriesSpread(ms, AllCpus(nodes), k, |nodes|);
  }

  /**
   Entry i is the i-th pod's; a Guaranteed pod's is numbered by its start and its containers are served, any other is
   numbered by how many such pods came before.
   */
  ghost predicate ServesPod(e: PodAffinity, ms: seq<PodItem>, nodes: seq<NumaNode>, i: nat)
    requires |nodes| > 0 && i < |ms|
  {
    && e.podName == ms[i].name && e.namespace == ms[i].namespace
    && (!IsGuaranteed(ms[i]) ==> e.containers == [] && e.numaNum == Int32(Others(ms[..i]) % |nodes|))
    && (IsGuaranteed(ms[i]) ==>
          && e.numaNum == Int32(Start(ms, PerNode(nodes), i) / PerNode(nodes))
          && |e.containers| == |ms[i].containers| == |PodJobs(ms[i])|
          && forall m :: 0 <= m < |PodJobs(ms[i])| ==>
               Serves(e.containers[m], ms, AllCpus(nodes), PerNode(nodes), i, m))
  }

  /** What an update achieves on any machine. */
  ghost predicate ServesPods(entries: seq<PodAffinity>, ms: seq<PodItem>, nodes: seq<NumaNode>)
    requires |nodes| > 0
  {
    |entries| == |ms| && forall i :: 0 <= i < |ms| ==> ServesPod(entries[i], ms, nodes, i)
  }

  lemma {:induction false} EntryServesPod(ms: seq<PodItem>, nodes: seq<NumaNode>, i: nat)
    requires |nodes| > 0 && i < |ms|
    ensures ServesPod(Entries(ms, AllCpus(nodes), PerNode(nodes), |nodes|)[i], ms, nodes, i)
  {
    var e := Entries(ms, AllCpus(nodes), PerNode(nodes), |nodes|)[i];
    if IsGuaranteed(ms[i]) {
      GuaranteedEntry(ms, AllCpus(nodes), PerNode(nodes), |nodes|, i);
      NodeArithmetic(Start(ms, PerNode(nodes), i), PerNode(nodes));
      forall m | 0 <= m < |PodJobs(ms[i])|
        ensures Serves(e.containers[m], ms, AllCpus(nodes), PerNode(nodes), i, m)
      {
        EntryServesItsPod(ms, nodes, i, m);
      }
    } else {
      EntriesAt(ms, AllCpus(nodes), PerNode(nodes), |nodes|, i);
      assert ms[..i + 1][..i] == ms[..i];
      CycleIsModulo(Others(ms[..i]), |nodes|);
    }
  }

  lemma {:induction false} EntriesServePods(ms: seq<PodItem>, nodes: seq<NumaNode>)
    requires |nodes| > 0
    ensures ServesPods(Entries(ms, AllCpus(nodes), PerNode(nodes), |nodes|), ms, nodes)
  {
    forall i | 0 <= i < |ms|
      ensures ServesPod(Entries(ms, AllCpus(nodes), PerNode(nodes), |nodes|)[i], ms, nodes, i)
    {
      EntryServesPod(ms, nodes, i);
    }
  }

  /** The update of the agent: whitelist, topology, placement. */
  method Rebalance(server: Server, node: Node, targets: seq<TargetPods>, pods: seq<PodItem>,
                   nodeOf: seq<int>, maxNode: nat)
    returns (ok: bool)
    requires forall i :: 0 <= i <= maxNode ==> |IndicesOf(nodeOf, i)| <= CPUSET_CAPACITY
    requires maxNode < 0x7fff_ffff
    modifies server`numaNums, node`podAffinity
    ensures var ms, nodes := Managed(pods, KeysOf(targets)), NodeMessages(nodeOf, maxNode);
            && (ok <==> Cursor(ms, PerNode(nodes)) <= |AllCpus(nodes)|)
            && (Guaranteeds(ms) <= maxNode + 1 ==> ok)
            && (ok ==> ServesPods(node.podAffinity, ms, nodes) && EvenlySpread(node.podAffinity, ms, |nodes|))
            && (ok && Even(nodeOf, maxNode) ==> Outcome(node.podAffinity, ms, nodes, PerNode(nodes)))
  {
    var nodes := server.GetNumaNodeInfo(nodeOf, maxNode);
    var keys := WhitelistKeys(targets);
    ok := UpdateByLoadBalancing(node, pods, nodes, keys);
    ghost var ms := Managed(pods, keys);
    if Guaranteeds(ms) <= |nodes| {
      FewPodsStayInRange(ms, nodes);
    }
    if ok {
      EntriesServePods(ms, nodes);
      EntriesSpread(ms, AllCpus(nodes), PerNode(nodes), |nodes|);
    }
    if ok && Even(nodeOf, maxNode) {
      EvenMachine(nodeOf, maxNode);
      OutcomeHolds(ms, nodes, PerNode(nodes));
    }
  }

  // ---- An instance: two nodes of four CPUs ----

  const TWO_NODES: seq<int> := Repeated(0, 4) + Repeated(1, 4)

  function Asking(name: string, q: nat): PodItem {
    PodItem(name, "default", name, GUARANTEED, [ContainerSpec("main", q)], [])
  }

  lemma {:induction false} JobsOfAsking(name: string, q: nat)
    ensures PodJobs(Asking(name, q)) == [Job("main", "", q)] && Total(PodJobs(Asking(name, q))) == q
  {
    assert PodJobs(Asking(name, q)) == [JobOf(Asking(name, q), 0)];
    assert Total([Job("main", "", q)]) == q;
  }

  function Repeated(x: int, n: nat): (r: seq<int>)
    ensures |r| == n
  {
    if n == 0 then [] else Repeated(x, n - 1) + [x]
  }

  lemma {:induction false} RepeatedEnd(s: seq<int>, x: int, n: nat, all: seq<int>)
    requires n > 0 && all == s + Repeated(x, n)
    ensures all != [] && all[|all| - 1] == x && all[..|all| - 1] == s + Repeated(x, n - 1)
  {
  }

  lemma {:induction false} IndicesOfRepeated(s: seq<int>, x: int, n: nat, v: int, all: seq<int>)
    requires all == s + Repeated(x, n)
    ensures IndicesOf(all, v) == IndicesOf(s, v) + if x == v then From(|s|, n) else []
  {
    if n == 0 {
      assert all == s;
    } else {
      RepeatedEnd(s, x, n, all);
      IndicesOfRepeated(s, x, n - 1, v, all[..|all| - 1]);
      assert From(|s|, n) == From(|s|, n - 1) + [|s| + n - 1];
    }
  }

  lemma {:induction false} FourPerNode()
    ensures IndicesOf(TWO_NODES, 0) == [0, 1, 2, 3] && IndicesOf(TWO_NODES, 1) == [4, 5, 6, 7]
  {
    TwiceRepeated(4, 0);
    TwiceRepeated(4, 1);
    assert From(0, 4) == [0, 1, 2, 3] && From(4, 4) == [4, 5, 6, 7];
  }

  lemma {:induction false} TwiceRepeated(n: nat, v: int)
    ensures IndicesOf(Repeated(0, n) + Repeated(1, n), v)
            == (if v == 0 then From(0, n) else []) + if v == 1 then From(n, n) else []
  {
    IndicesOfRepeated([], 0, n, v, Repeated(0, n));
    IndicesOfRepeated(Repeated(0, n), 1, n, v, Repeated(0, n) + Repeated(1, n));
  }

  /** The machine as the agent sees it. */
  lemma {:induction false} TwoNodesListed()
    ensures var nodes := NodeMessages(TWO_NODES, 1);
            && PerNode(nodes) == 4 && EqualNodes(nodes, 4) && RealNames(AllCpus(nodes))
            && |AllCpus(nodes)| == 8 && AllCpus(nodes)[1] == "1"
  {
    var nodes := NodeMessages(TWO_NODES, 1);
    FourPerNode();
    forall i | 0 <= i <= 1
      ensures |IndicesOf(TWO_NODES, i)| == 4
    {
    }
    EvenMachine(TWO_NODES, 1);
    FlatListAt(nodes, 4, 1);
    CpuNamesOfMessage(TWO_NODES, 0);
    assert Itoa(1) == "1";
  }

  /** Two pods that fill the first node and overrun the second by one. */
  lemma {:induction false} CursorFacts(k: nat)
    requires k > 1
    ensures CursorAfter(0, k, k) == k && CursorAfter(k, k, k + 1) == 2 * k && NodeNo(k, k) == 1
    ensures End(k, k) == 2 * k && SlotIndex(0, k, 1) == 1 && SlotIndex(k, k, k) == 1
  {
    assert Cycle(0, k) == 0 && Cycle(k, k) == 0 && Laps(k, k) == Laps(0, k) + 1;
  }

  /** Where the pods start, when the first asks for a node's CPUs and the second for one more. */
  lemma {:induction false} FirstNodeFilled(ms: seq<PodItem>, k: nat)
    requires k > 1 && ms == [Asking("a", k), Asking("b", k + 1)]
    ensures Request(ms, 1) == k + 1 && Start(ms, k, 0) == 0 && Start(ms, k, 1) == k && Cursor(ms, k) == 2 * k
    ensures !Fits(ms, k, 1)
  {
    var first := [Asking("a", k)];
    JobsOfAsking("a", k);
    JobsOfAsking("b", k + 1);
    CursorFacts(k);
    RunStep([], Asking("a", k), [], k, 1);
    RunStep(first, Asking("b", k + 1), [], k, 1);
    assert [] + [Asking("a", k)] == first && first + [Asking("b", k + 1)] == ms;
    assert ms[..0] == [] && ms[..1] == first;
  }

  /** A pod's only container uses the CPU on the pod's s-th slot. */
  lemma {:induction false} UsesIndex(ms: seq<PodItem>, cpus: seq<string>, k: nat, numas: nat, i: nat, name: string,
                                      q: nat, s: nat)
    requires k > 0 && numas > 0 && AllReal(cpus) && i < |ms| && ms[i] == Asking(name, q) && s < q && q > 1
    ensures |Entries(ms, cpus, k, numas)[i].containers| == 1
    ensures At(cpus, SlotIndex(Start(ms, k, i), k, s)) in UsedCpus(Entries(ms, cpus, k, numas)[i].containers[0])
  {
    JobsOfAsking(name, q);
    RealAvoidsComma(cpus);
    EntryServesOnList(ms, cpus, k, numas, i, 0);
    PodCpusContain(cpus, Start(ms, k, i), k, 0, q, At(cpus, SlotIndex(Start(ms, k, i), k, s)));
  }

  /**
   Two nodes of k CPUs, a pod that asks for k and one that asks for k + 1: the second starts on node 1, and its last
   CPU is the second one of node 0, which the first pod has.
   */
  lemma {:induction false} SecondNodeOverflowsIntoFirst(nodes: seq<NumaNode>, k: nat)
    requires |nodes| == 2 && k > 1 && EqualNodes(nodes, k) && RealNames(AllCpus(nodes))
    ensures |AllCpus(nodes)| == 2 * k && PerNode(nodes) == k
    ensures var ms := [Asking("a", k), Asking("b", k + 1)];
            var entries, x := Entries(ms, AllCpus(nodes), k, 2), AllCpus(nodes)[1];
            && Cursor(ms, k) == |AllCpus(nodes)|
            && entries[1].numaNum == 1 && !StaysOn(entries[1].containers, nodes[1])
            && |entries[0].containers| == 1 && x in UsedCpus(entries[0].containers[0])
            && |entries[1].containers| == 1 && x in UsedCpus(entries[1].containers[0])
            && !Exclusive(entries)
  {
    var ms := [Asking("a", k), Asking("b", k + 1)];
    EqualSizes(nodes, k);
    FirstNodeFilled(ms, k);
    CursorFacts(k);
    EntryIsServedOn(ms, nodes, k, 1);
    WrittenExclusiveExactly(ms, AllCpus(nodes), k, 2);
    UsesIndex(ms, AllCpus(nodes), k, 2, 0, "a", k, 1);
    UsesIndex(ms, AllCpus(nodes), k, 2, 1, "b", k + 1, k);
  }

  /** With all CPUs taken, a Guaranteed pod that asks for no whole CPU is given a node number that does not exist. */
  lemma {:induction false} NumberedPastTheNodes(nodes: seq<NumaNode>, k: nat)
    requires |nodes| == 2 && k > 1 && EqualNodes(nodes, k) && RealNames(AllCpus(nodes))
    ensures var ms := [Asking("a", k), Asking("b", k + 1), Asking("c", 0)];
            Cursor(ms, k) == |AllCpus(nodes)| && Entries(ms, AllCpus(nodes), k, 2)[2].numaNum == 2
  {
    var two, ms := [Asking("a", k), Asking("b", k + 1)], [Asking("a", k), Asking("b", k + 1), Asking("c", 0)];
    EqualSizes(nodes, k);
    FirstNodeFilled(two, k);
    JobsOfAsking("c", 0);
    RunStep(two, Asking("c", 0), AllCpus(nodes), k, 2);
    assert two + [Asking("c", 0)] == ms && ms[..2] == two;
    CycleUnique(2 * k, k, 2, 0);
    EntryNumber(ms, AllCpus(nodes), k, 2, 2);
  }

  /** One Guaranteed pod that asks for a CPU, and the first other pod is sent to the node that CPU is on. */
  lemma {:induction false} FirstOtherPodMeetsGuaranteed(nodes: seq<NumaNode>, k: nat, q: nat, other: PodItem)
    requires EqualNodes(nodes, k) && RealNames(AllCpus(nodes)) && |nodes| < 0x8000_0000
    requires 0 < q && !IsGuaranteed(other)
    ensures var ms := [Asking("a", q), other];
            var entries := Entries(ms, AllCpus(nodes), k, |nodes|);
            Cursor(ms, k) <= |AllCpus(nodes)| && entries[1].numaNum == 0 && Taken(entries, nodes[0])
  {
    var first, ms := [Asking("a", q)], [Asking("a", q), other];
    JobsOfAsking("a", q);
    RunStep([], Asking("a", q), AllCpus(nodes), k, |nodes|);
    RunStep(first, other, AllCpus(nodes), k, |nodes|);
    assert [] + [Asking("a", q)] == first && first + [other] == ms && ms[..1] == first;
    EqualSizes(nodes, k);
    FewPodsStayInRange(ms, nodes);
    SharedEntry(ms, AllCpus(nodes), k, |nodes|, 1);
    NodeTakenExactly(ms, nodes, k, 0);
  }

  /** The instance with two nodes of four CPUs each: pods asking for four and for five both get CPU 1. */
  lemma {:induction false} BothGetCpu1()
    ensures var nodes, ms := NodeMessages(TWO_NODES, 1), [Asking("a", 4), Asking("b", 5)];
            var entries := Entries(ms, AllCpus(nodes), PerNode(nodes), |nodes|);
            && Cursor(ms, PerNode(nodes)) == |AllCpus(nodes)|
            && entries[1].numaNum == 1 && !StaysOn(entries[1].containers, nodes[1])
            && |entries[0].containers| == 1 && "1" in UsedCpus(entries[0].containers[0])
            && |entries[1].containers| == 1 && "1" in UsedCpus(entries[1].containers[0])
            && !Exclusive(entries)
  {
    TwoNodesListed();
    SecondNodeOverflowsIntoFirst(NodeMessages(TWO_NODES, 1), 4);
  }
}
