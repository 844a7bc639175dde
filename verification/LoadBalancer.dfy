/**
 CPUs under the load-balancing policy: one cursor walks the flat CPU list for Guaranteed pods and stops at the
 end of a NUMA node for the rest of the pod, whose further CPUs come from an overflow cursor; every other
 whitelisted pod is sent to the next NUMA node in turn.
 */
module LoadBalancer {
  import opened Sequences
  import opened Text
  import opened Cluster
  import opened CustomResource
  import opened NumaTopology
  import opened RoundRobin

  // ---- The whitelist ----

  datatype TargetPods = TargetPods(namespace: string, names: seq<string>)

  function Key(namespace: string, name: string): string {
    namespace + "-" + name
  }

  ghost predicate Listed(targets: seq<TargetPods>, key: string) {
    exists t, n :: ListedAt(targets, t, n) && key == KeyAt(targets, t, n)
  }

  predicate ListedAt(targets: seq<TargetPods>, t: int, n: int) {
    0 <= t < |targets| && 0 <= n < |targets[t].names|
  }

  function KeyAt(targets: seq<TargetPods>, t: int, n: int): string
    requires ListedAt(targets, t, n)
  {
    Key(targets[t].namespace, targets[t].names[n])
  }

  /** The keys of all listed pods. */
  ghost function KeysOf(targets: seq<TargetPods>): (keys: set<string>)
    ensures forall key :: key in keys <==> Listed(targets, key)
  {
    set t, n | 0 <= t < |targets| && 0 <= n < |targets[t].names| :: KeyAt(targets, t, n)
  }

  method WhitelistKeys(targets: seq<TargetPods>) returns (keys: set<string>)
    ensures keys == KeysOf(targets)
  {
    keys := {};
    for t := 0 to |targets|
      invariant forall key :: key in keys <==> Listed(targets[..t], key)
    {
      ghost var before := keys;
      for n := 0 to |targets[t].names|
        invariant keys == before + set m | 0 <= m < n :: KeyAt(targets, t, m)
      {
        assert KeyAt(targets, t, n) == Key(targets[t].namespace, targets[t].names[n]);
        keys := keys + {Key(targets[t].namespace, targets[t].names[n])};
      }
      forall key
        ensures Listed(targets[..t + 1], key) <==> key in keys
      {
        ListedStep(targets, t, key);
      }
    }
    assert targets[..|targets|] == targets;
  }

  lemma {:induction false} ListedStep(targets: seq<TargetPods>, t: nat, key: string)
    requires t < |targets|
    ensures Listed(targets[..t + 1], key)
            <==> Listed(targets[..t], key) || exists m :: 0 <= m < |targets[t].names| && key == KeyAt(targets, t, m)
  {
    var sofar, more := targets[..t], targets[..t + 1];
    if u, n :| ListedAt(more, u, n) && key == KeyAt(more, u, n) {
      if u < t {
        assert ListedAt(sofar, u, n) && KeyAt(sofar, u, n) == key;
      } else {
        assert KeyAt(targets, t, n) == key;
      }
    }
    if u, n :| ListedAt(sofar, u, n) && key == KeyAt(sofar, u, n) {
      assert ListedAt(more, u, n) && KeyAt(more, u, n) == key;
    }
    if m :| 0 <= m < |targets[t].names| && key == KeyAt(targets, t, m) {
      assert ListedAt(more, t, m) && KeyAt(more, t, m) == key;
    }
  }

  /** The listed pods whose key is whitelisted, in list order. */
  function Managed(pods: seq<PodItem>, keys: set<string>): seq<PodItem> {
    if pods == [] then []
    else
      var init := Managed(pods[..|pods| - 1], keys);
      var p := pods[|pods| - 1];
      if Key(p.namespace, p.name) in keys then init + [p] else init
  }

  /** `managed` holds exactly the pods with a whitelisted key, each once and in list order: those at `at`. */
  ghost predicate Selected(pods: seq<PodItem>, keys: set<string>, managed: seq<PodItem>, at: seq<nat>) {
    && |at| == |managed| && Ascending(at)
    && (forall k :: 0 <= k < |at| ==> at[k] < |pods| && managed[k] == pods[at[k]])
    && (forall i :: 0 <= i < |pods| ==> (i in at <==> Key(pods[i].namespace, pods[i].name) in keys))
  }

  lemma {:induction false} SelectedStep(pods: seq<PodItem>, keys: set<string>, managed: seq<PodItem>, at: seq<nat>)
    requires pods != [] && Selected(pods[..|pods| - 1], keys, managed, at)
    ensures var p := pods[|pods| - 1];
            if Key(p.namespace, p.name) in keys then Selected(pods, keys, managed + [p], at + [|pods| - 1])
            else Selected(pods, keys, managed, at)
  {
    assert forall i :: i in at ==> i < |pods| - 1;
    assert forall i :: 0 <= i < |pods| - 1 ==> pods[..|pods| - 1][i] == pods[i];
  }

  lemma {:induction false} ManagedCharacter(pods: seq<PodItem>, keys: set<string>) returns (at: seq<nat>)
    ensures Selected(pods, keys, Managed(pods, keys), at)
  {
    at := [];
    if pods != [] {
      var init, p := pods[..|pods| - 1], pods[|pods| - 1];
      at := ManagedCharacter(init, keys);
      SelectedStep(pods, keys, Managed(init, keys), at);
      if Key(p.namespace, p.name) in keys {
        at := at + [|pods| - 1];
      }
    }
  }

  // ---- Keys are not pods ----

  /** Equal keys come from the same pod exactly when the namespaces are equally long. */
  lemma {:induction false} SameKeySamePod(ns: string, name: string, ns': string, name': string)
    requires Key(ns, name) == Key(ns', name')
    ensures ns == ns' && name == name' <==> |ns| == |ns'|
  {
    var key := Key(ns, name);
    assert key[..|ns|] == ns && key[|ns| + 1..] == name;
    assert key[..|ns'|] == ns' && key[|ns'| + 1..] == name';
  }

  ghost predicate ListedPod(targets: seq<TargetPods>, p: PodItem) {
    exists t, n :: ListedAt(targets, t, n) && targets[t].namespace == p.namespace && targets[t].names[n] == p.name
  }

  /** Some listed pod has the key of `p` and a namespace as long as that of `p`. */
  ghost predicate KeyMeant(targets: seq<TargetPods>, p: PodItem) {
    exists t, n :: ListedAt(targets, t, n) && KeyAt(targets, t, n) == Key(p.namespace, p.name)
                   && |targets[t].namespace| == |p.namespace|
  }

  lemma {:induction false} ManagedContains(pods: seq<PodItem>, keys: set<string>, p: PodItem)
    ensures p in Managed(pods, keys) <==> p in pods && Key(p.namespace, p.name) in keys
  {
    if pods != [] {
      var init, last := pods[..|pods| - 1], pods[|pods| - 1];
      ManagedContains(init, keys, p);
      assert pods == init + [last];
    }
  }

  /** A managed pod is a listed one exactly when its key was meant for it. */
  lemma {:induction false} ManagedIsListedExactly(targets: seq<TargetPods>, pods: seq<PodItem>, p: PodItem)
    requires p in Managed(pods, KeysOf(targets))
    ensures Listed(targets, Key(p.namespace, p.name))
    ensures ListedPod(targets, p) <==> KeyMeant(targets, p)
  {
    ManagedContains(pods, KeysOf(targets), p);
    if t, n :| ListedAt(targets, t, n) && targets[t].namespace == p.namespace && targets[t].names[n] == p.name {
      assert KeyAt(targets, t, n) == Key(p.namespace, p.name);
    }
    if t, n :| ListedAt(targets, t, n) && KeyAt(targets, t, n) == Key(p.namespace, p.name)
               && |targets[t].namespace| == |p.namespace| {
      SameKeySamePod(targets[t].namespace, targets[t].names[n], p.namespace, p.name);
    }
  }

  /** Every listed pod is managed, if it is on the worker node. */
  lemma {:induction false} ListedIsManaged(targets: seq<TargetPods>, pods: seq<PodItem>, p: PodItem)
    requires p in pods && ListedPod(targets, p)
    ensures p in Managed(pods, KeysOf(targets))
  {
    var t, n :| ListedAt(targets, t, n) && targets[t].namespace == p.namespace && targets[t].names[n] == p.name;
    assert KeyAt(targets, t, n) == Key(p.namespace, p.name);
    ManagedContains(pods, KeysOf(targets), p);
  }

  /** No listed namespace followed by a dash starts another one. */
  ghost predicate DashFree(namespaces: set<string>) {
    forall ns, ns' :: ns in namespaces && ns' in namespaces && ns != ns' ==> !(ns + "-" <= ns')
  }

  /** Over these namespaces equal keys mean equal pods, whatever the pods' names are. */
  ghost predicate KeysDetermine(namespaces: set<string>) {
    forall ns, ns', name, name' :: ns in namespaces && ns' in namespaces && Key(ns, name) == Key(ns', name') ==>
      ns == ns' && name == name'
  }

  lemma {:induction false} LongerNamespaceStartsSo(ns: string, name: string, ns': string, name': string)
    requires Key(ns, name) == Key(ns', name') && |ns| < |ns'|
    ensures ns + "-" <= ns'
  {
    var key := Key(ns, name);
    assert key[..|ns|] == ns && key[|ns|] == '-';
    assert key[..|ns'|] == ns';
    assert ns'[..|ns|] == ns && ns'[|ns|] == '-';
  }

  lemma {:induction false} PrefixCollides(ns: string, ns': string) returns (name: string, name': string)
    requires ns + "-" <= ns'
    ensures Key(ns, name) == Key(ns', name') && ns != ns'
  {
    name' := "x";
    name := ns'[|ns| + 1..] + "-" + name';
    assert ns' == ns + "-" + ns'[|ns| + 1..];
  }

  /** To be checked beforehand: keys determine pods exactly when no namespace starts with another one and a dash. */
  lemma {:induction false} KeysDetermineExactly(namespaces: set<string>)
    ensures KeysDetermine(namespaces) <==> DashFree(namespaces)
  {
    if KeysDetermine(namespaces) {
      forall ns, ns' | ns in namespaces && ns' in namespaces && ns != ns'
        ensures !(ns + "-" <= ns')
      {
        if ns + "-" <= ns' {
          var name, name' := PrefixCollides(ns, ns');
        }
      }
    }
    if DashFree(namespaces) {
      forall ns, ns', name, name' | ns in namespaces && ns' in namespaces && Key(ns, name) == Key(ns', name')
        ensures ns == ns' && name == name'
      {
        if |ns| < |ns'| {
          LongerNamespaceStartsSo(ns, name, ns', name');
        } else if |ns'| < |ns| {
          LongerNamespaceStartsSo(ns', name', ns, name);
        } else {
          SameKeySamePod(ns, name, ns', name');
        }
      }
    }
  }

  /** Over such namespaces the managed pods are the listed ones. */
  lemma {:induction false} ManagedMeansListed(targets: seq<TargetPods>, pods: seq<PodItem>, namespaces: set<string>,
                                              p: PodItem)
    requires DashFree(namespaces) && p.namespace in namespaces
    requires forall t :: 0 <= t < |targets| ==> targets[t].namespace in namespaces
    ensures p in Managed(pods, KeysOf(targets)) <==> p in pods && ListedPod(targets, p)
  {
    KeysDetermineExactly(namespaces);
    ManagedContains(pods, KeysOf(targets), p);
    if Listed(targets, Key(p.namespace, p.name)) {
      var t, n :| ListedAt(targets, t, n) && Key(p.namespace, p.name) == KeyAt(targets, t, n);
      assert Key(targets[t].namespace, targets[t].names[n]) == Key(p.namespace, p.name);
    }
    if p in pods && ListedPod(targets, p) {
      ListedIsManaged(targets, pods, p);
    }
  }

  /** Listing pod b-c of namespace a also manages pod c of namespace a-b. */
  lemma {:induction false} UnlistedPodIsManaged()
    ensures var targets := [TargetPods("a", ["b-c"])];
            var p := PodItem("c", "a-b", "u", GUARANTEED, [], []);
            p in Managed([p], KeysOf(targets)) && !ListedPod(targets, p)
  {
    var targets, p := [TargetPods("a", ["b-c"])], PodItem("c", "a-b", "u", GUARANTEED, [], []);
    assert KeyAt(targets, 0, 0) == "a-b-c" == Key(p.namespace, p.name);
    ManagedContains([p], KeysOf(targets), p);
    assert forall t, n :: ListedAt(targets, t, n) ==> |targets[t].namespace| == 1;
    assert |p.namespace| == 3;
  }

  // ---- Where the slots of one Guaranteed pod lie, in closed form ----

  /** The NUMA node that index c of the flat list is in, when every node has k CPUs. */
  function NodeNo(c: nat, k: nat): nat
    requires k > 0
  {
    Laps(c, k)
  }

  /** First index of that node. */
  function Low(c: nat, k: nat): nat
    requires k > 0
  {
    c - Cycle(c, k)
  }

  /** One past the last index of that node. */
  function End(c: nat, k: nat): nat
    requires k > 0
  {
    Low(c, k) + k
  }

  /** Node number and bounds as the code computes them. */
  lemma {:induction false} NodeArithmetic(c: nat, k: nat)
    requires k > 0
    ensures c / k == NodeNo(c, k)
    ensures NodeNo(c, k) * k == Low(c, k) && (NodeNo(c, k) + 1) * k == End(c, k)
    ensures NodeNo(c, k) <= Low(c, k)
  {
    LapsTimes(c, k);
    CycleIsModulo(c, k);
    assert (NodeNo(c, k) + 1) * k == NodeNo(c, k) * k + k;
    AtLeast(NodeNo(c, k), k);
  }

  lemma {:induction false} AtLeast(n: nat, k: nat)
    requires k > 0
    ensures n <= n * k
  {
    assert n * k == n + n * (k - 1);
  }

  lemma {:induction false} SameNode(g: nat, c: nat, k: nat)
    requires k > 0
    ensures g / k == NodeNo(c, k) <==> Low(c, k) <= g < End(c, k)
  {
    NodeArithmetic(c, k);
    NodeArithmetic(g, k);
    if Low(c, k) <= g < End(c, k) {
      CycleUnique(g, k, NodeNo(c, k), g - Low(c, k));
    }
  }

  /**
   The t-th index of the overflow cursor: it climbs from the node's number to the node's end, then cycles in the node.
   */
  function Overflow(start: nat, low: nat, k: nat, t: nat): nat
    requires k > 0
  {
    if t < low + k - start then start + t else low + Cycle(t - (low + k - start), k)
  }

  /** The index in the flat CPU list of the pod's s-th slot, for a pod that starts at cursor c. */
  function SlotIndex(c: nat, k: nat, s: nat): nat
    requires k > 0
  {
    if c + s < End(c, k) then c + s
    else Overflow(NodeNo(c, k), Low(c, k), k, c + s - End(c, k))
  }

  /**
   The indices as the code reaches them, with n the pod's node: up to the node's end, then from n itself up to the
   node's end, then round and round the node.
   */
  lemma {:induction false} SlotIndexArithmetic(c: nat, k: nat, s: nat)
    requires k > 0
    ensures var n := c / k;
            var over := c + s - (n + 1) * k;
            SlotIndex(c, k, s) == if over < 0 then c + s
                                  else if n + over < (n + 1) * k then n + over
                                  else n * k + (n + over - (n + 1) * k) % k
  {
    NodeArithmetic(c, k);
    var over := c + s - End(c, k);
    if over >= 0 && NodeNo(c, k) + over >= End(c, k) {
      CycleIsModulo(NodeNo(c, k) + over - End(c, k), k);
    }
  }

  /** The cursor after a pod that asked for q CPUs in all. */
  function CursorAfter(c: nat, k: nat, q: nat): nat
    requires k > 0
  {
    if c + q < End(c, k) then c + q else End(c, k)
  }

  // ---- What the whole update writes ----

  function At(cpus: seq<string>, i: nat): string {
    if i < |cpus| then cpus[i] else ""
  }

  /** The CPUs on the pod's slots from, ..., from+q-1. */
  function PodCpus(cpus: seq<string>, c: nat, k: nat, from: nat, q: nat): (r: seq<string>)
    requires k > 0
    ensures |r| == q
  {
    if q == 0 then [] else PodCpus(cpus, c, k, from, q - 1) + [At(cpus, SlotIndex(c, k, from + q - 1))]
  }

  lemma {:induction false} PodCpusAt(cpus: seq<string>, c: nat, k: nat, from: nat, q: nat, j: nat)
    requires k > 0 && j < q && SlotIndex(c, k, from + j) < |cpus|
    ensures PodCpus(cpus, c, k, from, q)[j] == cpus[SlotIndex(c, k, from + j)]
  {
    if j < q - 1 {
      PodCpusAt(cpus, c, k, from, q - 1, j);
    }
  }

  function PodContainer(job: Job, cpus: seq<string>, c: nat, k: nat, from: nat): Container
    requires k > 0
  {
    Container(job.containerId, job.name, Join(PodCpus(cpus, c, k, from, job.cpus), ','), Itoa(NodeNo(c, k)))
  }

  function PodContainers(jobs: seq<Job>, cpus: seq<string>, c: nat, k: nat): (r: seq<Container>)
    requires k > 0
    ensures |r| == |jobs|
  {
    if jobs == [] then []
    else
      var init := jobs[..|jobs| - 1];
      PodContainers(init, cpus, c, k) + [PodContainer(jobs[|jobs| - 1], cpus, c, k, Total(init))]
  }

  predicate IsGuaranteed(p: PodItem) {
    p.qosClass == GUARANTEED
  }

  /** The main cursor after the managed pods `ms`. */
  function Cursor(ms: seq<PodItem>, k: nat): nat
    requires k > 0
  {
    if ms == [] then 0
    else
      var c := Cursor(ms[..|ms| - 1], k);
      var p := ms[|ms| - 1];
      if IsGuaranteed(p) then CursorAfter(c, k, Total(PodJobs(p))) else c
  }

  /** How many of the pods are not Guaranteed. */
  function Others(ms: seq<PodItem>): nat {
    if ms == [] then 0 else Others(ms[..|ms| - 1]) + if IsGuaranteed(ms[|ms| - 1]) then 0 else 1
  }

  /** The entry of the last of the managed pods `ms`. */
  function LastEntry(ms: seq<PodItem>, cpus: seq<string>, k: nat, numas: nat): PodAffinity
    requires ms != [] && k > 0 && numas > 0
  {
    var before, p := ms[..|ms| - 1], ms[|ms| - 1];
    if IsGuaranteed(p) then
      var c := Cursor(before, k);
      PodAffinity(Int32(NodeNo(c, k)), p.name, p.namespace, PodContainers(PodJobs(p), cpus, c, k))
    else PodAffinity(Int32(Cycle(Others(before), numas)), p.name, p.namespace, [])
  }

  function Entries(ms: seq<PodItem>, cpus: seq<string>, k: nat, numas: nat): (r: seq<PodAffinity>)
    requires k > 0 && numas > 0
    ensures |r| == |ms|
  {
    if ms == [] then [] else Entries(ms[..|ms| - 1], cpus, k, numas) + [LastEntry(ms, cpus, k, numas)]
  }

  lemma {:induction false} EntriesAt(ms: seq<PodItem>, cpus: seq<string>, k: nat, numas: nat, i: nat)
    requires k > 0 && numas > 0 && i < |ms|
    ensures Entries(ms, cpus, k, numas)[i] == LastEntry(ms[..i + 1], cpus, k, numas)
  {
    if i < |ms| - 1 {
      EntriesAt(ms[..|ms| - 1], cpus, k, numas, i);
      assert ms[..|ms| - 1][..i + 1] == ms[..i + 1];
    } else {
      assert ms[..i + 1] == ms;
    }
  }

  lemma {:induction false} RunStep(ms: seq<PodItem>, p: PodItem, cpus: seq<string>, k: nat, numas: nat)
    requires k > 0 && numas > 0
    ensures Entries(ms + [p], cpus, k, numas) == Entries(ms, cpus, k, numas) + [LastEntry(ms + [p], cpus, k, numas)]
    ensures IsGuaranteed(p) ==>
      && Cursor(ms + [p], k) == CursorAfter(Cursor(ms, k), k, Total(PodJobs(p)))
      && Others(ms + [p]) == Others(ms)
      && LastEntry(ms + [p], cpus, k, numas)
         == PodAffinity(Int32(NodeNo(Cursor(ms, k), k)), p.name, p.namespace,
                        PodContainers(PodJobs(p), cpus, Cursor(ms, k), k))
    ensures !IsGuaranteed(p) ==>
      && Cursor(ms + [p], k) == Cursor(ms, k)
      && Others(ms + [p]) == Others(ms) + 1
      && LastEntry(ms + [p], cpus, k, numas) == PodAffinity(Int32(Cycle(Others(ms), numas)), p.name, p.namespace, [])
  {
    assert (ms + [p])[..|ms|] == ms;
  }

  /** The pods that are not Guaranteed are counted, and only Guaranteed pods move the main cursor. */
  lemma {:induction false} CountersAddUp(ms: seq<PodItem>, p: PodItem, k: nat)
    requires k > 0
    ensures Cursor([], k) == 0 && Others([]) == 0
    ensures Others(ms + [p]) == Others(ms) + if p.qosClass == "Guaranteed" then 0 else 1
    ensures p.qosClass != "Guaranteed" ==> Cursor(ms + [p], k) == Cursor(ms, k)
  {
    assert (ms + [p])[..|ms|] == ms;
  }

  // ---- The loops ----

  /** Where both cursors stand after the pod's first s slots. */
  ghost predicate CursorsAt(main: nat, overflow: nat, c: nat, k: nat, s: nat)
    requires k > 0
  {
    && main == CursorAfter(c, k, s)
    && overflow == Overflow(NodeNo(c, k), Low(c, k), k, if c + s < End(c, k) then 0 else c + s - End(c, k))
  }

  lemma {:induction false} MainStep(main: nat, overflow: nat, c: nat, k: nat, s: nat)
    requires k > 0 && CursorsAt(main, overflow, c, k, s) && main < End(c, k)
    ensures main == SlotIndex(c, k, s) && CursorsAt(main + 1, overflow, c, k, s + 1)
  {
  }

  lemma {:induction false} OverflowStep(main: nat, overflow: nat, c: nat, k: nat, s: nat)
    requires k > 0 && CursorsAt(main, overflow, c, k, s) && main >= End(c, k)
    ensures overflow == SlotIndex(c, k, s) && overflow < End(c, k) == main
    ensures CursorsAt(main, if overflow + 1 == End(c, k) then Low(c, k) else overflow + 1, c, k, s + 1)
  {
    NodeArithmetic(c, k);
    var t, climb := c + s - End(c, k), End(c, k) - NodeNo(c, k);
    if t >= climb {
      CycleStep(t - climb, k);
    }
  }

  lemma {:induction false} PodCpusStep(cpus: seq<string>, c: nat, k: nat, from: nat, q: nat, slot: nat)
    requires k > 0 && slot == from + q
    ensures PodCpus(cpus, c, k, from, q + 1) == PodCpus(cpus, c, k, from, q) + [At(cpus, SlotIndex(c, k, slot))]
  {
  }

  lemma {:induction false} CursorAfterGrows(c: nat, k: nat, q: nat, r: nat)
    requires k > 0 && q <= r
    ensures CursorAfter(c, k, q) <= CursorAfter(c, k, r)
  {
  }

  /** Takes one container's CPUs; not ok means the main cursor ran off the list. */
  method TakeCpus(cpus: seq<string>, c: nat, k: nat, q: nat, main0: nat, overflow0: nat, ghost s: nat)
    returns (ok: bool, taken: seq<string>, main: nat, overflow: nat)
    requires k > 0 && CursorsAt(main0, overflow0, c, k, s) && main0 <= |cpus|
    ensures ok <==> CursorAfter(c, k, s + q) <= |cpus|
    ensures ok ==> taken == PodCpus(cpus, c, k, s, q) && CursorsAt(main, overflow, c, k, s + q)
  {
    ok, taken, main, overflow := true, [], main0, overflow0;
    ghost var slot, end := s, s + q;
    for i := 0 to q
      invariant slot == s + i && ok && taken == PodCpus(cpus, c, k, s, i)
      invariant CursorsAt(main, overflow, c, k, slot) && main <= |cpus|
    {
      var cpu;
      ok, cpu, main, overflow := TakeOne(cpus, c, k, main, overflow, slot);
      CursorAfterGrows(c, k, slot + 1, end);
      if !ok {
        return;
      }
      PodCpusStep(cpus, c, k, s, i, slot);
      taken, slot := taken + [cpu], slot + 1;
    }
  }

  /** One slot: from the main cursor while it is in the pod's node, from the overflow cursor afterwards. */
  method TakeOne(cpus: seq<string>, c: nat, k: nat, main0: nat, overflow0: nat, ghost s: nat)
    returns (ok: bool, cpu: string, main: nat, overflow: nat)
    requires k > 0 && CursorsAt(main0, overflow0, c, k, s) && main0 <= |cpus|
    ensures ok <==> CursorAfter(c, k, s + 1) <= |cpus|
    ensures ok ==> cpu == At(cpus, SlotIndex(c, k, s)) && CursorsAt(main, overflow, c, k, s + 1) && main <= |cpus|
  {
    ok, cpu, main, overflow := true, "", main0, overflow0;
    NodeArithmetic(c, k);
    var numaNo := c / k;
    var inside := InNode(main, numaNo, k, c);
    if inside {
      MainStep(main, overflow, c, k, s);
      if main >= |cpus| {
        ok := false;
        return;
      }
      cpu := cpus[main];
      main := main + 1;
    } else {
      OverflowStep(main, overflow, c, k, s);
      cpu := cpus[overflow];
      overflow := AdvanceOverflow(overflow, numaNo, k, c);
    }
  }

  /** Whether the main cursor is still in the pod's node. */
  method InNode(main: nat, numaNo: nat, k: nat, ghost c: nat) returns (inside: bool)
    requires k > 0 && numaNo == NodeNo(c, k)
    ensures inside <==> Low(c, k) <= main < End(c, k)
  {
    SameNode(main, c, k);
    inside := main / k == numaNo;
  }

  method AdvanceOverflow(overflow: nat, numaNo: nat, k: nat, ghost c: nat) returns (next: nat)
    requires k > 0 && numaNo == NodeNo(c, k)
    ensures next == if overflow + 1 == End(c, k) then Low(c, k) else overflow + 1
  {
    NodeArithmetic(c, k);
    next := overflow + 1;
    if next == (numaNo + 1) * k {
      next := numaNo * k;
    }
  }

  /** `containers` are those of `jobs`, and both cursors have moved past their slots. */
  ghost predicate PlacedSoFar(containers: seq<Container>, main: nat, overflow: nat, jobs: seq<Job>,
                              cpus: seq<string>, c: nat, k: nat)
    requires k > 0
  {
    containers == PodContainers(jobs, cpus, c, k) && CursorsAt(main, overflow, c, k, Total(jobs)) && main <= |cpus|
  }

  method PlaceContainer(p: PodItem, i: nat, cpus: seq<string>, k: nat, c: nat, main0: nat, overflow0: nat,
                        sofar: seq<Container>, ghost jobs: seq<Job>)
    returns (ok: bool, containers: seq<Container>, main: nat, overflow: nat)
    requires k > 0 && i < |p.containers| && PlacedSoFar(sofar, main0, overflow0, jobs, cpus, c, k)
    ensures ok <==> CursorAfter(c, k, Total(jobs + [JobOf(p, i)])) <= |cpus|
    ensures ok ==> PlacedSoFar(containers, main, overflow, jobs + [JobOf(p, i)], cpus, c, k)
  {
    assert (jobs + [JobOf(p, i)])[..|jobs|] == jobs;
    NodeArithmetic(c, k);
    var spec := p.containers[i];
    var id := FindContainerId(p.statuses, spec.name);
    var taken;
    ok, taken, main, overflow := TakeCpus(cpus, c, k, spec.cpuRequest, main0, overflow0, Total(jobs));
    containers := sofar + [Container(id, spec.name, Join(taken, ','), Itoa(c / k))];
  }

  /** The entry of one Guaranteed pod. */
  method PlacePod(p: PodItem, cpus: seq<string>, k: nat, c: nat) returns (ok: bool, entry: PodAffinity, main: nat)
    requires k > 0 && c <= |cpus|
    ensures ok <==> CursorAfter(c, k, Total(PodJobs(p))) <= |cpus|
    ensures ok ==> entry == PodAffinity(Int32(NodeNo(c, k)), p.name, p.namespace, PodContainers(PodJobs(p), cpus, c, k))
    ensures ok ==> main == CursorAfter(c, k, Total(PodJobs(p)))
  {
    NodeArithmetic(c, k);
    var numaNo := c / k;
    var overflow: nat := c / k;
    var containers: seq<Container> := [];
    entry := PodAffinity(Int32(numaNo), p.name, p.namespace, []);
    main := c;
    for i := 0 to |p.containers|
      invariant PlacedSoFar(containers, main, overflow, PodJobsTo(p, i), cpus, c, k)
    {
      ok, containers, main, overflow :=
        PlaceContainer(p, i, cpus, k, c, main, overflow, containers, PodJobsTo(p, i));
      if !ok {
        TotalOfPodGrows(p, i + 1);
        CursorAfterGrows(c, k, Total(PodJobsTo(p, i + 1)), Total(PodJobs(p)));
        return;
      }
    }
    ok, entry := true, entry.(containers := containers);
  }

  lemma {:induction false} TotalOfPodGrows(p: PodItem, n: nat)
    requires n <= |p.containers|
    ensures Total(PodJobsTo(p, n)) <= Total(PodJobs(p))
    decreases |p.containers| - n
  {
    if n < |p.containers| {
      assert PodJobsTo(p, n + 1)[..n] == PodJobsTo(p, n);
      TotalOfPodGrows(p, n + 1);
    }
  }

  method AllCpuNames(nodes: seq<NumaNode>) returns (cpus: seq<string>)
    ensures cpus == AllCpus(nodes)
  {
    cpus := [];
    for i := 0 to |nodes|
      invariant cpus == AllCpus(nodes[..i])
    {
      cpus := cpus + Split(nodes[i].cpuset, ',');
      assert NameLists(nodes[..i + 1])[..i] == NameLists(nodes[..i]);
    }
    assert nodes[..|nodes|] == nodes;
  }

  lemma {:induction false} EveryNodeNames(nodes: seq<NumaNode>)
    ensures |AllCpus(nodes)| >= |nodes|
  {
    if nodes != [] {
      EveryNodeNames(nodes[..|nodes| - 1]);
      assert NameLists(nodes)[..|nodes| - 1] == NameLists(nodes[..|nodes| - 1]);
    }
  }

  /**
   The CPUs per NUMA node as the allocator reckons them; at least one, since every cpuset text splits into one name or
   more.
   */
  function PerNode(nodes: seq<NumaNode>): (k: nat)
    requires |nodes| > 0
    ensures k > 0 && |nodes| * k <= |AllCpus(nodes)| < |nodes| * k + |nodes|
  {
    EveryNodeNames(nodes);
    AtLeastOneEach(|AllCpus(nodes)|, |nodes|);
    |AllCpus(nodes)| / |nodes|
  }

  lemma {:induction false} AtLeastOneEach(total: nat, n: nat)
    requires total >= n > 0
    ensures total / n > 0 && n * (total / n) <= total < n * (total / n) + n
  {
    MultipleIsNotSmall(total / n, n);
  }

  lemma {:induction false} CursorGrows(ms: seq<PodItem>, k: nat, i: nat)
    requires k > 0 && i <= |ms|
    ensures Cursor(ms[..i], k) <= Cursor(ms, k)
  {
    if i < |ms| {
      assert ms[..|ms| - 1][..i] == ms[..i];
      CursorGrows(ms[..|ms| - 1], k, i);
    } else {
      assert ms[..i] == ms;
    }
  }

  lemma {:induction false} ManagedPrefix(pods: seq<PodItem>, keys: set<string>, i: nat)
    requires i <= |pods|
    ensures Managed(pods[..i], keys) <= Managed(pods, keys)
  {
    if i < |pods| {
      assert pods[..|pods| - 1][..i] == pods[..i];
      ManagedPrefix(pods[..|pods| - 1], keys, i);
    } else {
      assert pods[..i] == pods;
    }
  }

  lemma {:induction false} RunStopsEarly(pods: seq<PodItem>, keys: set<string>, i: nat, k: nat)
    requires i <= |pods| && k > 0
    ensures Cursor(Managed(pods[..i], keys), k) <= Cursor(Managed(pods, keys), k)
  {
    ManagedPrefix(pods, keys, i);
    var part := Managed(pods[..i], keys);
    assert Managed(pods, keys)[..|part|] == part;
    CursorGrows(Managed(pods, keys), k, |part|);
  }

  /** One whole update of the node entry; not ok means the process stopped on a division by zero or an index. */
  method UpdateByLoadBalancing(node: Node, pods: seq<PodItem>, nodes: seq<NumaNode>, keys: set<string>)
    returns (ok: bool)
    modifies node`podAffinity
    ensures ok <==> |nodes| > 0 && Cursor(Managed(pods, keys), PerNode(nodes)) <= |AllCpus(nodes)|
    ensures ok ==> node.podAffinity == Entries(Managed(pods, keys), AllCpus(nodes), PerNode(nodes), |nodes|)
  {
    node.podAffinity := [];
    var cpus := AllCpuNames(nodes);
    var numas := |nodes|;
    if numas == 0 {
      return false;
    }
    var k := PerNode(nodes);
    var main: nat, next: nat := 0, 0;
    for i := 0 to |pods|
      invariant UpdatedSoFar(Managed(pods[..i], keys), cpus, k, numas, main, next, node.podAffinity)
    {
      var pod := pods[i];
      ghost var ms := Managed(pods[..i], keys);
      assert pods[..i + 1][..i] == pods[..i];
      if Key(pod.namespace, pod.name) !in keys {
        continue;
      }
      if pod.qosClass == GUARANTEED {
        var entry, after;
        ok, entry, after := PlacePod(pod, cpus, k, main);
        RunStep(ms, pod, cpus, k, numas);
        if !ok {
          RunStopsEarly(pods, keys, i + 1, k);
          return;
        }
        main := after;
        node.podAffinity := node.podAffinity + [entry];
      } else {
        RunStep(ms, pod, cpus, k, numas);
        node.podAffinity := node.podAffinity + [PodAffinity(Int32(next), pod.name, pod.namespace, [])];
        next := Advance(next, numas, Others(ms));
      }
    }
    assert pods[..|pods|] == pods;
    ok := true;
  }

  /** The cursors and entries after the managed pods `ms`. */
  ghost predicate UpdatedSoFar(ms: seq<PodItem>, cpus: seq<string>, k: nat, numas: nat, main: nat, next: nat,
                               entries: seq<PodAffinity>)
  {
    && k > 0 && numas > 0
    && main == Cursor(ms, k) && main <= |cpus| && next == Cycle(Others(ms), numas)
    && entries == Entries(ms, cpus, k, numas)
  }

  // ---- Properties ----

  lemma {:induction false} OthersAtMost(ms: seq<PodItem>)
    ensures Others(ms) <= |ms|
  {
    if ms != [] {
      OthersAtMost(ms[..|ms| - 1]);
    }
  }

  /** How many of the pods are Guaranteed. */
  function Guaranteeds(ms: seq<PodItem>): nat {
    OthersAtMost(ms);
    |ms| - Others(ms)
  }

  /** The pod that ends `ms` moves the main cursor from c to min(c + q, (c/k + 1) * k). */
  lemma {:induction false} CursorStopsAtTheBoundary(ms: seq<PodItem>, k: nat)
    requires k > 0 && ms != [] && ms[|ms| - 1].qosClass == "Guaranteed"
    ensures var c := Cursor(ms[..|ms| - 1], k);
            var q := Total(PodJobs(ms[|ms| - 1]));
            Cursor(ms, k) == if c + q <= (c / k + 1) * k then c + q else (c / k + 1) * k
  {
    NodeArithmetic(Cursor(ms[..|ms| - 1], k), k);
  }

  /** Whatever they request, m Guaranteed pods leave the cursor within the first m nodes. */
  lemma {:induction false} CursorBound(ms: seq<PodItem>, k: nat)
    requires k > 0
    ensures Cursor(ms, k) <= Guaranteeds(ms) * k
  {
    if ms != [] {
      var init := ms[..|ms| - 1];
      CursorBound(init, k);
      if IsGuaranteed(ms[|ms| - 1]) {
        var c, m := Cursor(init, k), Guaranteeds(init);
        NodeArithmetic(c, k);
        MultipleIsNotSmall(NodeNo(c, k) - m, k);
        OneMoreNode(NodeNo(c, k), m, k);
        assert Guaranteeds(ms) == m + 1;
      } else {
        assert Guaranteeds(ms) == Guaranteeds(init);
      }
    }
  }

  lemma {:induction false} OneMoreNode(a: nat, m: nat, k: nat)
    requires a * k <= m * k && k > 0
    ensures (a + 1) * k <= (m + 1) * k
  {
  }

  /** As long as there are no more Guaranteed pods than nodes, the update never runs off the list. */
  lemma {:induction false} FewPodsStayInRange(ms: seq<PodItem>, nodes: seq<NumaNode>)
    requires |nodes| > 0 && Guaranteeds(ms) <= |nodes|
    ensures Cursor(ms, PerNode(nodes)) <= |AllCpus(nodes)|
  {
    var k := PerNode(nodes);
    CursorBound(ms, k);
    MoreNodes(Guaranteeds(ms), |nodes|, k);
  }

  lemma {:induction false} MoreNodes(a: nat, b: nat, k: nat)
    requires a <= b
    ensures a * k <= b * k
  {
  }

  // ---- The overflow cursor ----

  /**
   The index never reaches a higher node, never falls below the node's number, and after the first wrap is inside the
   node.
   */
  lemma {:induction false} SlotBounds(c: nat, k: nat, s: nat)
    requires k > 0
    ensures NodeNo(c, k) <= SlotIndex(c, k, s) < End(c, k)
    ensures c + s < End(c, k) || c + s - End(c, k) >= End(c, k) - NodeNo(c, k) ==> Low(c, k) <= SlotIndex(c, k, s)
  {
    NodeArithmetic(c, k);
  }

  /** All of a pod's slots lie in the node its entry names. */
  ghost predicate Confined(c: nat, k: nat, q: nat)
    requires k > 0
  {
    forall s :: 0 <= s < q ==> Low(c, k) <= SlotIndex(c, k, s) < End(c, k)
  }

  /** A pod stays in its node exactly when it fits, or the node is the first, or nodes have a single CPU. */
  lemma {:induction false} ConfinedExactly(c: nat, k: nat, q: nat)
    requires k > 0
    ensures Confined(c, k, q) <==> c + q <= End(c, k) || NodeNo(c, k) == 0 || k == 1
  {
    FirstOverflow(c, k);
    if c + q > End(c, k) && NodeNo(c, k) > 0 && k > 1 {
      assert !(Low(c, k) <= SlotIndex(c, k, End(c, k) - c));
    } else {
      forall s | 0 <= s < q
        ensures Low(c, k) <= SlotIndex(c, k, s) < End(c, k)
      {
        SlotBounds(c, k, s);
      }
    }
  }

  /**
   The first overflow slot has the node's number as its index, which is below the node unless both are 0 or k is 1.
   */
  lemma {:induction false} FirstOverflow(c: nat, k: nat)
    requires k > 0
    ensures SlotIndex(c, k, End(c, k) - c) == NodeNo(c, k)
    ensures NodeNo(c, k) < Low(c, k) <==> NodeNo(c, k) > 0 && k > 1
  {
    NodeArithmetic(c, k);
    Proper(NodeNo(c, k), k);
  }

  lemma {:induction false} Proper(n: nat, k: nat)
    requires k > 0
    ensures n < n * k <==> n > 0 && k > 1
  {
    if k > 1 {
      assert n * k == n + n * (k - 1);
    }
  }

  // ---- Sharing ----

  /** The cursor at which the i-th managed pod starts, and its total request. */
  function Start(ms: seq<PodItem>, k: nat, i: nat): nat
    requires k > 0 && i < |ms|
  {
    Cursor(ms[..i], k)
  }

  function Request(ms: seq<PodItem>, i: nat): nat
    requires i < |ms|
  {
    Total(PodJobs(ms[i]))
  }

  lemma {:induction false} StartsAscend(ms: seq<PodItem>, k: nat, i: nat, j: nat)
    requires k > 0 && i < j < |ms| && IsGuaranteed(ms[i])
    ensures CursorAfter(Start(ms, k, i), k, Request(ms, i)) <= Start(ms, k, j)
  {
    assert ms[..i + 1][..i] == ms[..i];
    assert ms[..j][..i + 1] == ms[..i + 1];
    CursorGrows(ms[..j], k, i + 1);
  }

  /** No index is taken through the main cursor by two pods: the earlier pod's are all smaller. */
  lemma {:induction false} MainIndicesExclusive(ms: seq<PodItem>, k: nat, i: nat, j: nat, s: nat, t: nat)
    requires k > 0 && i < j < |ms| && IsGuaranteed(ms[i]) && IsGuaranteed(ms[j])
    requires s < Request(ms, i) && Start(ms, k, i) + s < End(Start(ms, k, i), k)
    requires t < Request(ms, j) && Start(ms, k, j) + t < End(Start(ms, k, j), k)
    ensures SlotIndex(Start(ms, k, i), k, s) < SlotIndex(Start(ms, k, j), k, t)
  {
    StartsAscend(ms, k, i, j);
  }

  lemma {:induction false} PodCpusContain(cpus: seq<string>, c: nat, k: nat, from: nat, q: nat, x: string)
    requires k > 0
    ensures x in PodCpus(cpus, c, k, from, q) <==> exists s :: from <= s < from + q && x == At(cpus, SlotIndex(c, k, s))
  {
    if q > 0 {
      PodCpusContain(cpus, c, k, from, q - 1, x);
      assert At(cpus, SlotIndex(c, k, from + q - 1)) in PodCpus(cpus, c, k, from, q);
    }
  }

  /** A pod that fits in what is left of its node. */
  predicate Fits(ms: seq<PodItem>, k: nat, i: nat)
    requires k > 0 && i < |ms|
  {
    Start(ms, k, i) + Request(ms, i) <= End(Start(ms, k, i), k)
  }

  /** The CPUs of the i-th managed pod, if it is Guaranteed. */
  function GrantedCpus(ms: seq<PodItem>, cpus: seq<string>, k: nat, i: nat): seq<string>
    requires k > 0 && i < |ms|
  {
    PodCpus(cpus, Start(ms, k, i), k, 0, Request(ms, i))
  }

  /** Two Guaranteed pods that fit share no CPU. */
  lemma {:induction false} FittingPodsShareNothing(ms: seq<PodItem>, cpus: seq<string>, k: nat, i: nat, j: nat)
    requires k > 0 && i < j < |ms| && IsGuaranteed(ms[i]) && IsGuaranteed(ms[j])
    requires Fits(ms, k, i) && Fits(ms, k, j)
    requires Cursor(ms, k) <= |cpus| && Distinct(cpus)
    ensures !Overlap(GrantedCpus(ms, cpus, k, i), GrantedCpus(ms, cpus, k, j))
  {
    var a, b := GrantedCpus(ms, cpus, k, i), GrantedCpus(ms, cpus, k, j);
    StartsAscend(ms, k, i, j);
    assert ms[..j + 1][..j] == ms[..j];
    CursorGrows(ms, k, j + 1);
    forall x | x in a
      ensures x !in b
    {
      PodCpusContain(cpus, Start(ms, k, i), k, 0, Request(ms, i), x);
      PodCpusContain(cpus, Start(ms, k, j), k, 0, Request(ms, j), x);
    }
  }

  // ---- Locality in terms of the nodes' own CPU lists ----

  /** All nodes have k CPUs and no CPU name is repeated. */
  ghost predicate EqualNodes(nodes: seq<NumaNode>, k: nat) {
    |nodes| > 0 && k > 0 && Distinct(AllCpus(nodes)) && forall i :: 0 <= i < |nodes| ==> |CpuNames(nodes[i])| == k
  }

  lemma {:induction false} FlatListLength(nodes: seq<NumaNode>, k: nat)
    requires forall i :: 0 <= i < |nodes| ==> |CpuNames(nodes[i])| == k
    ensures |AllCpus(nodes)| == |nodes| * k
  {
    if nodes != [] {
      FlatListLength(nodes[..|nodes| - 1], k);
      assert NameLists(nodes)[..|nodes| - 1] == NameLists(nodes[..|nodes| - 1]);
    }
  }

  /** With equal nodes, index p of the flat list is the CPU at p mod k of node p / k. */
  lemma {:induction false} FlatListAt(nodes: seq<NumaNode>, k: nat, p: nat)
    requires k > 0 && forall i :: 0 <= i < |nodes| ==> |CpuNames(nodes[i])| == k
    requires p < |AllCpus(nodes)|
    ensures NodeNo(p, k) < |nodes| && AllCpus(nodes)[p] == CpuNames(nodes[NodeNo(p, k)])[Cycle(p, k)]
  {
    var init := nodes[..|nodes| - 1];
    FlatListLength(init, k);
    assert NameLists(nodes)[..|init|] == NameLists(init);
    if p < |AllCpus(init)| {
      FlatListAt(init, k, p);
    } else {
      NodeArithmetic(p, k);
      CycleUnique(p, k, |init|, p - |init| * k);
    }
  }

  lemma {:induction false} IndexOnNode(nodes: seq<NumaNode>, k: nat, n: nat, r: nat, p: nat)
    requires k > 0 && forall i :: 0 <= i < |nodes| ==> |CpuNames(nodes[i])| == k
    requires n < |nodes| && r < k && p == n * k + r
    ensures NodeNo(p, k) == n && p < |AllCpus(nodes)| && AllCpus(nodes)[p] == CpuNames(nodes[n])[r]
  {
    FlatListLength(nodes, k);
    MoreNodes(n + 1, |nodes|, k);
    assert (n + 1) * k == n * k + k;
    CycleUnique(p, k, n, r);
    FlatListAt(nodes, k, p);
  }

  lemma {:induction false} DistinctAt(cpus: seq<string>, p: nat, p': nat)
    requires Distinct(cpus) && p < |cpus| && p' < |cpus| && cpus[p] == cpus[p']
    ensures p == p'
  {
  }

  /** Index p is on node n exactly when its name is one of node n's. */
  lemma {:induction false} OnNodeByName(nodes: seq<NumaNode>, k: nat, p: nat, n: nat)
    requires EqualNodes(nodes, k) && p < |AllCpus(nodes)| && n < |nodes|
    ensures AllCpus(nodes)[p] in CpuNames(nodes[n]) <==> NodeNo(p, k) == n
  {
    FlatListAt(nodes, k, p);
    if AllCpus(nodes)[p] in CpuNames(nodes[n]) {
      var r :| 0 <= r < |CpuNames(nodes[n])| && CpuNames(nodes[n])[r] == AllCpus(nodes)[p];
      IndexOnNode(nodes, k, n, r, n * k + r);
      DistinctAt(AllCpus(nodes), p, n * k + r);
    }
  }

  /**
   A pod's CPUs are all CPUs of the node its entry names exactly when it fits, or the node is the first, or k is 1.
   */
  lemma {:induction false} PodIsLocalExactly(nodes: seq<NumaNode>, k: nat, c: nat, q: nat)
    requires EqualNodes(nodes, k) && q > 0 && CursorAfter(c, k, q) <= |AllCpus(nodes)|
    ensures NodeNo(c, k) < |nodes|
    ensures (forall x :: x in PodCpus(AllCpus(nodes), c, k, 0, q) ==> x in CpuNames(nodes[NodeNo(c, k)]))
            <==> c + q <= End(c, k) || NodeNo(c, k) == 0 || k == 1
  {
    var cpus, n := AllCpus(nodes), NodeNo(c, k);
    FlatListAt(nodes, k, c);
    ConfinedExactly(c, k, q);
    forall s | 0 <= s < q
      ensures SlotIndex(c, k, s) < |cpus|
      ensures cpus[SlotIndex(c, k, s)] in CpuNames(nodes[n]) <==> Low(c, k) <= SlotIndex(c, k, s) < End(c, k)
    {
      SlotBounds(c, k, s);
      OnNodeByName(nodes, k, SlotIndex(c, k, s), n);
      SameNode(SlotIndex(c, k, s), c, k);
      NodeArithmetic(SlotIndex(c, k, s), k);
    }
    forall x
      ensures x in PodCpus(cpus, c, k, 0, q) <==> exists s :: 0 <= s < q && x == At(cpus, SlotIndex(c, k, s))
    {
      PodCpusContain(cpus, c, k, 0, q, x);
    }
    if !Confined(c, k, q) {
      var s :| 0 <= s < q && !(Low(c, k) <= SlotIndex(c, k, s) < End(c, k));
      assert At(cpus, SlotIndex(c, k, s)) in PodCpus(cpus, c, k, 0, q);
    }
  }

  lemma {:induction false} PodCpusAppend(cpus: seq<string>, c: nat, k: nat, q: nat, r: nat, total: nat)
    requires k > 0 && total == q + r
    ensures PodCpus(cpus, c, k, 0, q) + PodCpus(cpus, c, k, q, r) == PodCpus(cpus, c, k, 0, total)
  {
    if r > 0 {
      PodCpusAppend(cpus, c, k, q, r - 1, total - 1);
    }
  }

  lemma {:induction false} PodCpusAvoidComma(cpus: seq<string>, c: nat, k: nat, from: nat, q: nat)
    requires k > 0 && AllAvoid(cpus, ',')
    ensures AllAvoid(PodCpus(cpus, c, k, from, q), ',')
  {
    if q > 0 {
      PodCpusAvoidComma(cpus, c, k, from, q - 1);
    }
  }

  /** The container asked for a single CPU and its slot has an empty name. */
  predicate Blank(job: Job, cpus: seq<string>, c: nat, k: nat, from: nat)
    requires k > 0
  {
    job.cpus == 1 && At(cpus, SlotIndex(c, k, from)) == ""
  }

  predicate NoneBlank(jobs: seq<Job>, cpus: seq<string>, c: nat, k: nat)
    requires k > 0
  {
    jobs == []
    || (NoneBlank(jobs[..|jobs| - 1], cpus, c, k)
        && !Blank(jobs[|jobs| - 1], cpus, c, k, Total(jobs[..|jobs| - 1])))
  }

  /** A container's text names its slots, except that a single empty name reads as none. */
  lemma {:induction false} UsedByContainer(job: Job, cpus: seq<string>, c: nat, k: nat, from: nat)
    requires k > 0 && AllAvoid(cpus, ',')
    ensures UsedCpus(PodContainer(job, cpus, c, k, from))
            == if Blank(job, cpus, c, k, from) then [] else PodCpus(cpus, c, k, from, job.cpus)
  {
    PodCpusAvoidComma(cpus, c, k, from, job.cpus);
    UsedCpusReadBack(PodCpus(cpus, c, k, from, job.cpus), job.containerId, job.name, Itoa(NodeNo(c, k)));
    OneCpu(cpus, c, k, from, job.cpus);
  }

  lemma {:induction false} OneCpu(cpus: seq<string>, c: nat, k: nat, from: nat, q: nat)
    requires k > 0
    ensures PodCpus(cpus, c, k, from, q) == [""] <==> q == 1 && At(cpus, SlotIndex(c, k, from)) == ""
  {
    if q == 1 {
      assert PodCpus(cpus, c, k, from, q) == [At(cpus, SlotIndex(c, k, from))];
    }
  }

  /** The texts of a pod's containers, read in order, name the pod's slots 0, 1, 2, ... exactly when none is blank. */
  lemma {:induction false} PodTextsReadBack(jobs: seq<Job>, cpus: seq<string>, c: nat, k: nat)
    requires k > 0 && AllAvoid(cpus, ',')
    ensures |Concat(UsedByEach(PodContainers(jobs, cpus, c, k)))| <= Total(jobs)
    ensures Concat(UsedByEach(PodContainers(jobs, cpus, c, k))) == PodCpus(cpus, c, k, 0, Total(jobs))
            <==> NoneBlank(jobs, cpus, c, k)
  {
    if jobs == [] {
      assert UsedByEach([]) == [];
    } else {
      PodTextsReadBack(jobs[..|jobs| - 1], cpus, c, k);
      PodTextsStep(jobs, cpus, c, k);
    }
  }

  lemma {:induction false} PodTextsStep(jobs: seq<Job>, cpus: seq<string>, c: nat, k: nat)
    requires k > 0 && AllAvoid(cpus, ',') && jobs != []
    requires var init := jobs[..|jobs| - 1];
             var used := Concat(UsedByEach(PodContainers(init, cpus, c, k)));
             |used| <= Total(init) && (used == PodCpus(cpus, c, k, 0, Total(init)) <==> NoneBlank(init, cpus, c, k))
    ensures |Concat(UsedByEach(PodContainers(jobs, cpus, c, k)))| <= Total(jobs)
    ensures Concat(UsedByEach(PodContainers(jobs, cpus, c, k))) == PodCpus(cpus, c, k, 0, Total(jobs))
            <==> NoneBlank(jobs, cpus, c, k)
  {
    var init, job := jobs[..|jobs| - 1], jobs[|jobs| - 1];
    var cs, from := PodContainers(init, cpus, c, k), Total(init);
    var used, more := Concat(UsedByEach(cs)), UsedCpus(PodContainer(job, cpus, c, k, from));
    UsedByContainer(job, cpus, c, k, from);
    UsedByEachStep(cs, PodContainer(job, cpus, c, k, from), used, more, used + more);
    PodCpusAppend(cpus, c, k, from, job.cpus, Total(jobs));
    SameParts(used, more, PodCpus(cpus, c, k, 0, from), PodCpus(cpus, c, k, from, job.cpus));
  }

  lemma {:induction false} SameParts(a: seq<string>, b: seq<string>, a': seq<string>, b': seq<string>)
    requires |a| <= |a'| && |b| <= |b'|
    ensures a + b == a' + b' <==> a == a' && b == b'
  {
    if a + b == a' + b' {
      assert |a + b| == |a' + b'|;
      assert a == (a + b)[..|a|] && a' == (a' + b')[..|a'|];
      assert b == (a + b)[|a|..] && b' == (a' + b')[|a'|..];
    }
  }

  /** The pod's slots before the q-th are all below the cursor it leaves. */
  lemma {:induction false} SlotInRange(c: nat, k: nat, s: nat, q: nat)
    requires k > 0 && s < q
    ensures SlotIndex(c, k, s) < CursorAfter(c, k, q)
  {
    SlotBounds(c, k, s);
  }

  /** On a list of real names nothing is blank. */
  lemma {:induction false} RealNoneBlank(jobs: seq<Job>, cpus: seq<string>, c: nat, k: nat)
    requires k > 0 && AllReal(cpus) && CursorAfter(c, k, Total(jobs)) <= |cpus|
    ensures NoneBlank(jobs, cpus, c, k)
  {
    if jobs != [] {
      var init, job := jobs[..|jobs| - 1], jobs[|jobs| - 1];
      CursorAfterGrows(c, k, Total(init), Total(jobs));
      RealNoneBlank(init, cpus, c, k);
      if job.cpus == 1 {
        SlotInRange(c, k, Total(init), Total(jobs));
        RealNamesCharacter(cpus);
        assert At(cpus, SlotIndex(c, k, Total(init))) in cpus;
      }
    }
  }

  lemma {:induction false} PodContainersAt(jobs: seq<Job>, cpus: seq<string>, c: nat, k: nat, m: nat)
    requires k > 0 && m < |jobs|
    ensures PodContainers(jobs, cpus, c, k)[m] == PodContainer(jobs[m], cpus, c, k, Total(jobs[..m]))
    ensures Total(jobs[..m]) + jobs[m].cpus <= Total(jobs)
  {
    if m < |jobs| - 1 {
      assert jobs[..|jobs| - 1][..m] == jobs[..m];
      PodContainersAt(jobs[..|jobs| - 1], cpus, c, k, m);
    }
  }

  /** The m-th container of the i-th managed pod, as the update writes it. */
  ghost predicate Serves(c: Container, ms: seq<PodItem>, cpus: seq<string>, k: nat, i: nat, m: nat)
    requires k > 0 && i < |ms| && m < |PodJobs(ms[i])|
  {
    var spec, job, from := ms[i].containers[m], PodJobs(ms[i])[m], Total(PodJobs(ms[i])[..m]);
    && c.name == spec.name && IsContainerId(ms[i].statuses, spec.name, c.containerId) && job.cpus == spec.cpuRequest
    && c.memset == Itoa(Start(ms, k, i) / k)
    && UsedCpus(c) == (if Blank(job, cpus, Start(ms, k, i), k, from) then []
                       else PodCpus(cpus, Start(ms, k, i), k, from, job.cpus))
    && (|UsedCpus(c)| == job.cpus <==> !Blank(job, cpus, Start(ms, k, i), k, from))
  }

  lemma {:induction false} GuaranteedEntry(ms: seq<PodItem>, cpus: seq<string>, k: nat, numas: nat, i: nat)
    requires k > 0 && numas > 0 && i < |ms| && IsGuaranteed(ms[i])
    ensures Entries(ms, cpus, k, numas)[i]
            == PodAffinity(Int32(NodeNo(Start(ms, k, i), k)), ms[i].name, ms[i].namespace,
                           PodContainers(PodJobs(ms[i]), cpus, Start(ms, k, i), k))
  {
    EntriesAt(ms, cpus, k, numas, i);
    assert ms[..i + 1][..i] == ms[..i];
  }

  /** On any comma-free list, entry i is that of the i-th managed pod and its containers are served. */
  lemma {:induction false} EntryServesOnList(ms: seq<PodItem>, cpus: seq<string>, k: nat, numas: nat, i: nat, m: nat)
    requires k > 0 && numas > 0 && AllAvoid(cpus, ',')
    requires i < |ms| && IsGuaranteed(ms[i]) && m < |PodJobs(ms[i])|
    ensures var e := Entries(ms, cpus, k, numas)[i];
            && e.podName == ms[i].name && e.namespace == ms[i].namespace && |e.containers| == |PodJobs(ms[i])|
            && Serves(e.containers[m], ms, cpus, k, i, m)
  {
    var jobs, c := PodJobs(ms[i]), Start(ms, k, i);
    GuaranteedEntry(ms, cpus, k, numas, i);
    PodContainersAt(jobs, cpus, c, k, m);
    PodJobsAt(ms[i], |ms[i].containers|, m);
    ContainerIdIsFirst(ms[i].statuses, ms[i].containers[m].name);
    NodeArithmetic(c, k);
    UsedByContainer(jobs[m], cpus, c, k, Total(jobs[..m]));
  }

  /**
   Whatever the nodes' texts are, entry i is that of the i-th managed pod; each of its containers gets as many CPUs as
   it asked for, on slots after the earlier ones', unless it asked for one and the name of its slot is empty.
   */
  lemma {:induction false} EntryServesItsPod(ms: seq<PodItem>, nodes: seq<NumaNode>, i: nat, m: nat)
    requires |nodes| > 0 && i < |ms| && IsGuaranteed(ms[i]) && m < |PodJobs(ms[i])|
    ensures var e := Entries(ms, AllCpus(nodes), PerNode(nodes), |nodes|)[i];
            && e.podName == ms[i].name && e.namespace == ms[i].namespace && |e.containers| == |PodJobs(ms[i])|
            && Serves(e.containers[m], ms, AllCpus(nodes), PerNode(nodes), i, m)
  {
    AllCpusAvoidComma(nodes);
    EntryServesOnList(ms, AllCpus(nodes), PerNode(nodes), |nodes|, i, m);
  }

  /** The cursor the i-th pod leaves is within the list when the last one is. */
  lemma {:induction false} PodInRange(ms: seq<PodItem>, k: nat, i: nat)
    requires k > 0 && i < |ms| && IsGuaranteed(ms[i])
    ensures CursorAfter(Start(ms, k, i), k, Request(ms, i)) <= Cursor(ms, k)
  {
    assert ms[..i + 1][..i] == ms[..i];
    CursorGrows(ms, k, i + 1);
  }

  /** The same condition decides whether the written entry keeps every container on the entry's NUMA node. */
  lemma {:induction false} EntryIsLocalExactly(ms: seq<PodItem>, nodes: seq<NumaNode>, k: nat, i: nat)
    requires EqualNodes(nodes, k) && RealNames(AllCpus(nodes)) && i < |ms| && IsGuaranteed(ms[i])
    requires Request(ms, i) > 0 && Cursor(ms, k) <= |AllCpus(nodes)|
    ensures NodeNo(Start(ms, k, i), k) < |nodes|
    ensures StaysOn(Entries(ms, AllCpus(nodes), k, |nodes|)[i].containers, nodes[NodeNo(Start(ms, k, i), k)])
            <==> Fits(ms, k, i) || NodeNo(Start(ms, k, i), k) == 0 || k == 1
  {
    var jobs, c := PodJobs(ms[i]), Start(ms, k, i);
    PodInRange(ms, k, i);
    GuaranteedEntry(ms, AllCpus(nodes), k, |nodes|, i);
    PodIsLocalExactly(nodes, k, c, Total(jobs));
    RealAvoidsComma(AllCpus(nodes));
    RealNoneBlank(jobs, AllCpus(nodes), c, k);
    PodTextsReadBack(jobs, AllCpus(nodes), c, k);
    StaysOnByConcat(PodContainers(jobs, AllCpus(nodes), c, k), nodes[NodeNo(c, k)]);
  }

  ghost predicate StaysOn(cs: seq<Container>, node: NumaNode) {
    forall m, x :: 0 <= m < |cs| && x in UsedCpus(cs[m]) ==> x in CpuNames(node)
  }

  lemma {:induction false} StaysOnByConcat(cs: seq<Container>, node: NumaNode)
    ensures StaysOn(cs, node) <==> forall x :: x in Concat(UsedByEach(cs)) ==> x in CpuNames(node)
  {
    forall x
      ensures x in Concat(UsedByEach(cs)) <==> exists m :: 0 <= m < |cs| && x in UsedCpus(cs[m])
    {
      ConcatContains(UsedByEach(cs), x);
    }
  }

  // ---- The other pods ----

  /** Non-Guaranteed managed pods that the entries send to one node. */
  function SentTo(ms: seq<PodItem>, entries: seq<PodAffinity>, numa: int): nat
    requires |entries| == |ms|
  {
    if ms == [] then 0
    else
      SentTo(ms[..|ms| - 1], entries[..|ms| - 1], numa)
      + if !IsGuaranteed(ms[|ms| - 1]) && entries[|ms| - 1].numaNum == numa then 1 else 0
  }

  /** The number a pod sent round robin gets. */
  lemma {:induction false} SharedNumber(ms: seq<PodItem>, cpus: seq<string>, k: nat, numas: nat)
    requires k > 0 && 0 < numas <= 0x8000_0000 && ms != [] && !IsGuaranteed(ms[|ms| - 1])
    ensures LastEntry(ms, cpus, k, numas).numaNum == Cycle(Others(ms[..|ms| - 1]), numas)
  {
  }

  lemma {:induction false} EntriesEnd(ms: seq<PodItem>, cpus: seq<string>, k: nat, numas: nat)
    requires k > 0 && numas > 0 && ms != []
    ensures Entries(ms, cpus, k, numas)[..|ms| - 1] == Entries(ms[..|ms| - 1], cpus, k, numas)
    ensures Entries(ms, cpus, k, numas)[|ms| - 1] == LastEntry(ms, cpus, k, numas)
  {
  }

  lemma {:induction false} SentToIsHits(ms: seq<PodItem>, cpus: seq<string>, k: nat, numas: nat, a: nat)
    requires k > 0 && a < numas <= 0x8000_0000
    ensures SentTo(ms, Entries(ms, cpus, k, numas), a) == Hits(Others(ms), numas, a)
  {
    if ms != [] {
      SentToIsHits(ms[..|ms| - 1], cpus, k, numas, a);
      SentToStep(ms, cpus, k, numas, a);
    }
  }

  lemma {:induction false} SentToStep(ms: seq<PodItem>, cpus: seq<string>, k: nat, numas: nat, a: nat)
    requires k > 0 && a < numas <= 0x8000_0000 && ms != []
    requires var init := ms[..|ms| - 1];
             SentTo(init, Entries(init, cpus, k, numas), a) == Hits(Others(init), numas, a)
    ensures SentTo(ms, Entries(ms, cpus, k, numas), a) == Hits(Others(ms), numas, a)
  {
    var init := ms[..|ms| - 1];
    EntriesEnd(ms, cpus, k, numas);
    if !IsGuaranteed(ms[|ms| - 1]) {
      SharedNumber(ms, cpus, k, numas);
      HitsStep(Others(init), numas, a);
    }
  }

  /** However Guaranteed pods interleave, the others are spread over the nodes evenly, up to one. */
  lemma {:induction false} OthersBalanced(ms: seq<PodItem>, cpus: seq<string>, k: nat, numas: nat, a: nat, b: nat)
    requires k > 0 && a < numas <= 0x8000_0000 && b < numas
    ensures -1 <= SentTo(ms, Entries(ms, cpus, k, numas), a) - SentTo(ms, Entries(ms, cpus, k, numas), b) <= 1
  {
    SentToIsHits(ms, cpus, k, numas, a);
    SentToIsHits(ms, cpus, k, numas, b);
    Balanced(Others(ms), numas, a, b);
  }
}
