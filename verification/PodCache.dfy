/** The cache of labelled pods, the sandbox events that drive it, and its locking. */
module PodCache {
  import opened Text

  const GROUP_LABEL := "rcgroup"

  /** What a pod object says at one moment. */
  datatype PodValue = PodValue(name: string, uid: string, namespace: string, labels: Option<map<string, string>>)

  /** A label map is shared by reference. */
  class LabelMap {
    var entries: map<string, string>

    constructor ()
      ensures entries == map[]
    {
      entries := map[];
    }
  }

  class PodInfo {
    const name: string
    const uid: string
    const namespace: string
    const labels: LabelMap?

    constructor (name: string, uid: string, namespace: string, labels: LabelMap?)
      ensures this.name == name && this.uid == uid && this.namespace == namespace && this.labels == labels
    {
      this.name, this.uid, this.namespace, this.labels := name, uid, namespace, labels;
    }

    function Value(): PodValue
      reads this, labels
    {
      PodValue(name, uid, namespace, if labels == null then None else Some(labels.entries))
    }

    /** Says the same of a pod as p does, label by label. */
    ghost predicate Same(p: PodInfo)
      reads labels, p.labels
    {
      && name == p.name && uid == p.uid && namespace == p.namespace
      && (labels == null <==> p.labels == null)
      && (labels != null && p.labels != null ==> labels.entries == p.labels.entries)
    }

    /** An equal object that shares nothing with this one, not even the label map. */
    method DeepCopy() returns (c: PodInfo)
      ensures fresh(c) && c.Same(this) && c.Value() == Value()
      ensures c.labels != null ==> fresh(c.labels)
    {
      var anno: LabelMap? := null;
      if labels != null {
        var annoMap := new LabelMap();
        var keys := labels.entries.Keys;
        while keys != {}
          invariant keys <= labels.entries.Keys && fresh(annoMap)
          invariant annoMap.entries == map k | k in labels.entries && k !in keys :: labels.entries[k]
          decreases |keys|
        {
          var k :| k in keys;
          keys := keys - {k};
          annoMap.entries := annoMap.entries[k := labels.entries[k]];
        }
        assert annoMap.entries == labels.entries;
        anno := annoMap;
      }
      c := new PodInfo(name, uid, namespace, anno);
    }
  }

  class Cache {
    var pods: map<string, PodInfo>

    ghost function Labels(): set<LabelMap>
      reads this
    {
      set k | k in pods && pods[k].labels != null :: pods[k].labels
    }

    /** What the cache says at one moment. */
    ghost function Snapshot(): map<string, PodValue>
      reads this, pods.Values, Labels()
    {
      map k | k in pods :: pods[k].Value()
    }

    constructor ()
      ensures pods == map[]
    {
      pods := map[];
    }

    method PodExist(podID: string) returns (ok: bool)
      ensures ok <==> podID in pods
    {
      ok := podID in pods;
    }

    method DelPod(podID: string)
      modifies this
      ensures pods == old(pods) - {podID}
    {
      var ok := PodExist(podID);
      if !ok {
        assert pods - {podID} == pods;
        return;
      }
      pods := pods - {podID};
    }

    method UpdatePod(pod: PodInfo?)
      modifies this
      ensures pods == if pod == null || pod.uid == "" then old(pods) else old(pods)[pod.uid := pod]
    {
      if pod == null || pod.uid == "" {
        return;
      }
      pods := pods[pod.uid := pod];
    }

    /** Copies of all pods; nothing reachable from the result existed before, and no two copies share a label map. */
    method ListPod() returns (res: map<string, PodInfo>)
      ensures res.Keys == pods.Keys
      ensures forall k :: k in res ==> fresh(res[k]) && (res[k].labels != null ==> fresh(res[k].labels))
      ensures forall k :: k in res ==> res[k].Same(pods[k])
      ensures Separate(res)
    {
      res := map[];
      var ids := pods.Keys;
      while ids != {}
        invariant ids <= pods.Keys && res.Keys == pods.Keys - ids
        invariant forall k :: k in res ==> fresh(res[k]) && (res[k].labels != null ==> fresh(res[k].labels))
        invariant forall k :: k in res ==> res[k].Same(pods[k])
        invariant Separate(res)
        decreases |ids|
      {
        var id :| id in ids;
        ids := ids - {id};
        var copy := pods[id].DeepCopy();
        SeparateStep(res, id, copy);
        res := res[id := copy];
      }
    }
  }

  /** Different keys have different objects and different label maps. */
  ghost predicate Separate(res: map<string, PodInfo>) {
    forall k, l :: k in res && l in res && k != l ==>
      res[k] != res[l] && (res[k].labels != null ==> res[k].labels != res[l].labels)
  }

  lemma {:induction false} SeparateStep(res: map<string, PodInfo>, id: string, copy: PodInfo)
    requires Separate(res)
    requires forall k :: k in res ==> res[k] != copy && (copy.labels != null ==> res[k].labels != copy.labels)
    ensures Separate(res[id := copy])
  {
  }

  // ---- The sandbox handlers ----

  datatype SandboxEvent = Started(pod: PodValue) | Ended(uid: string)

  predicate Labelled(p: PodValue) {
    p.labels.Some? && GROUP_LABEL in p.labels.value
  }

  function Next(cache: map<string, PodValue>, ev: SandboxEvent): map<string, PodValue> {
    match ev
    case Started(pod) => if Labelled(pod) && pod.uid != "" then cache[pod.uid := pod] else cache
    case Ended(uid) => cache - {uid}
  }

  /**
   Both handlers run under one mutex, so events are steps. The sandbox's label map goes into the cache by reference.
   */
  method RunPodSandbox(cache: Cache, pod: PodInfo)
    modifies cache
    ensures cache.Snapshot() == Next(old(cache.Snapshot()), Started(pod.Value()))
    ensures if pod.labels != null && "rcgroup" in pod.labels.entries && pod.uid != "" then
              && pod.uid in cache.pods && cache.pods == old(cache.pods)[pod.uid := cache.pods[pod.uid]]
              && fresh(cache.pods[pod.uid])
              && cache.pods[pod.uid].Same(pod) && cache.pods[pod.uid].labels == pod.labels
            else cache.pods == old(cache.pods)
  {
    if pod.labels == null || GROUP_LABEL !in pod.labels.entries {
      return;
    }
    var info := new PodInfo(pod.name, pod.uid, pod.namespace, pod.labels);
    cache.UpdatePod(info);
  }

  method StopPodSandbox(cache: Cache, uid: string)
    modifies cache
    ensures cache.Snapshot() == Next(old(cache.Snapshot()), Ended(uid))
    ensures cache.pods == old(cache.pods) - {uid}
  {
    cache.DelPod(uid);
  }

  function After(evs: seq<SandboxEvent>): map<string, PodValue> {
    if evs == [] then map[] else Next(After(evs[..|evs| - 1]), evs[|evs| - 1])
  }

  ghost predicate Starts(ev: SandboxEvent, uid: string) {
    ev.Started? && Labelled(ev.pod) && ev.pod.uid == uid && uid != ""
  }

  /** Event i is a labelled start of uid, with neither a stop nor another labelled start of it later. */
  ghost predicate IsLatestStart(evs: seq<SandboxEvent>, uid: string, i: nat) {
    && i < |evs| && Starts(evs[i], uid)
    && forall j :: i < j < |evs| ==> evs[j] != Ended(uid) && !Starts(evs[j], uid)
  }

  lemma {:induction false} NeutralEvent(evs: seq<SandboxEvent>, uid: string, i: nat)
    requires evs != [] && !Starts(evs[|evs| - 1], uid) && evs[|evs| - 1] != Ended(uid)
    ensures IsLatestStart(evs, uid, i) <==> IsLatestStart(evs[..|evs| - 1], uid, i)
  {
    var before := evs[..|evs| - 1];
    if IsLatestStart(before, uid, i) {
      assert evs[i] == before[i];
      assert forall j :: i < j < |before| ==> evs[j] == before[j];
    }
    if IsLatestStart(evs, uid, i) {
      assert evs[i] == before[i];
      assert forall j :: i < j < |before| ==> before[j] == evs[j];
    }
  }

  /**
   After any events the cache holds exactly the uids started with a label since their last stop, each with its latest
   pod.
   */
  lemma {:induction false} CacheHoldsLatestStarts(evs: seq<SandboxEvent>, uid: string)
    ensures uid in After(evs) <==> exists i: nat :: IsLatestStart(evs, uid, i)
    ensures forall i: nat :: IsLatestStart(evs, uid, i) ==> uid in After(evs) && After(evs)[uid] == evs[i].pod
  {
    if evs != [] {
      var before, last := evs[..|evs| - 1], evs[|evs| - 1];
      CacheHoldsLatestStarts(before, uid);
      if Starts(last, uid) {
        assert IsLatestStart(evs, uid, |evs| - 1);
      } else if last != Ended(uid) {
        forall i: nat
          ensures IsLatestStart(evs, uid, i) <==> IsLatestStart(before, uid, i)
        {
          NeutralEvent(evs, uid, i);
        }
      }
    }
  }

  // ---- The unlocked check and the locked delete of DelPod, interleaved ----

  /** Thread t begins a delete with the check; thread t performs the locked part; some thread updates. */
  datatype Micro = Check(t: nat, uid: string) | Delete(t: nat) | Update(pod: PodValue)

  datatype Atomic = Del(t: nat, uid: string) | Upd(pod: PodValue)

  /** The cache, and for every thread between its check and its locked delete the uid it deletes. */
  datatype Shared = Shared(pods: map<string, PodValue>, pending: map<nat, string>)

  function MicroStep(s: Shared, m: Micro): Shared {
    match m
    case Check(t, uid) => if t !in s.pending && uid in s.pods then s.(pending := s.pending[t := uid]) else s
    case Delete(t) => if t in s.pending then Shared(s.pods - {s.pending[t]}, s.pending - {t}) else s
    case Update(pod) => if pod.uid == "" then s else s.(pods := s.pods[pod.uid := pod])
  }

  function MicroRun(trace: seq<Micro>): Shared {
    if trace == [] then Shared(map[], map[]) else MicroStep(MicroRun(trace[..|trace| - 1]), trace[|trace| - 1])
  }

  /** The atomic operation that takes effect at a micro step, if one does. */
  function Effect(s: Shared, m: Micro): seq<Atomic> {
    match m
    case Check(t, uid) => if t !in s.pending && uid !in s.pods then [Del(t, uid)] else []
    case Delete(t) => if t in s.pending then [Del(t, s.pending[t])] else []
    case Update(pod) => [Upd(pod)]
  }

  function Linearized(trace: seq<Micro>): seq<Atomic> {
    if trace == [] then []
    else Linearized(trace[..|trace| - 1]) + Effect(MicroRun(trace[..|trace| - 1]), trace[|trace| - 1])
  }

  function AtomicStep(pods: map<string, PodValue>, a: Atomic): map<string, PodValue> {
    match a
    case Del(_, uid) => pods - {uid}
    case Upd(pod) => if pod.uid == "" then pods else pods[pod.uid := pod]
  }

  function AtomicRun(ops: seq<Atomic>): map<string, PodValue> {
    if ops == [] then map[] else AtomicStep(AtomicRun(ops[..|ops| - 1]), ops[|ops| - 1])
  }

  ghost predicate Writes(a: Atomic, uid: string) {
    a.Upd? && a.pod.uid == uid && uid != ""
  }

  ghost predicate Removes(a: Atomic, uid: string) {
    a.Del? && a.uid == uid
  }

  /** Operation i is an update of uid, with neither a delete nor another update of it later. */
  ghost predicate IsLatestWrite(ops: seq<Atomic>, uid: string, i: nat) {
    && i < |ops| && Writes(ops[i], uid)
    && forall j :: i < j < |ops| ==> !Removes(ops[j], uid) && !Writes(ops[j], uid)
  }

  lemma {:induction false} NeutralOperation(ops: seq<Atomic>, uid: string, i: nat)
    requires ops != [] && !Writes(ops[|ops| - 1], uid) && !Removes(ops[|ops| - 1], uid)
    ensures IsLatestWrite(ops, uid, i) <==> IsLatestWrite(ops[..|ops| - 1], uid, i)
  {
    var before := ops[..|ops| - 1];
    if IsLatestWrite(before, uid, i) {
      assert ops[i] == before[i];
      assert forall j :: i < j < |before| ==> ops[j] == before[j];
    }
    if IsLatestWrite(ops, uid, i) {
      assert ops[i] == before[i];
      assert forall j :: i < j < |before| ==> before[j] == ops[j];
    }
  }

  /** After an atomic history there is exactly what was updated since its last delete, as last updated. */
  lemma {:induction false} AtomicHoldsLatestWrites(ops: seq<Atomic>, uid: string)
    ensures uid in AtomicRun(ops) <==> exists i: nat :: IsLatestWrite(ops, uid, i)
    ensures forall i: nat :: IsLatestWrite(ops, uid, i) ==> uid in AtomicRun(ops) && AtomicRun(ops)[uid] == ops[i].pod
  {
    if ops != [] {
      var before, last := ops[..|ops| - 1], ops[|ops| - 1];
      AtomicHoldsLatestWrites(before, uid);
      if Writes(last, uid) {
        assert IsLatestWrite(ops, uid, |ops| - 1);
      } else if !Removes(last, uid) {
        forall i: nat
          ensures IsLatestWrite(ops, uid, i) <==> IsLatestWrite(before, uid, i)
        {
          NeutralOperation(ops, uid, i);
        }
      }
    }
  }

  /** The deletes a thread has begun, in order; a thread inside one cannot begin another. */
  function Begun(trace: seq<Micro>, t: nat): seq<string> {
    if trace == [] then []
    else
      var before, m := trace[..|trace| - 1], trace[|trace| - 1];
      Begun(before, t) + if m.Check? && m.t == t && t !in MicroRun(before).pending then [m.uid] else []
  }

  /** The deletes of a thread in an atomic history, in order. */
  function DeletesOf(ops: seq<Atomic>, t: nat): seq<string> {
    if ops == [] then []
    else
      var last := ops[|ops| - 1];
      DeletesOf(ops[..|ops| - 1], t) + if last.Del? && last.t == t then [last.uid] else []
  }

  lemma {:induction false} EffectIsAtomic(s: Shared, m: Micro, ops: seq<Atomic>)
    requires s.pods == AtomicRun(ops)
    ensures MicroStep(s, m).pods == AtomicRun(ops + Effect(s, m))
  {
    var effect := Effect(s, m);
    if effect == [] {
      assert ops + effect == ops;
    } else {
      assert (ops + effect)[..|ops|] == ops;
      if m.Check? {
        assert s.pods - {m.uid} == s.pods;
      }
    }
  }

  /** Whatever the interleaving, the cache is as if deletes and updates had been atomic. */
  lemma {:induction false} InterleavingRefinesAtomic(trace: seq<Micro>)
    ensures MicroRun(trace).pods == AtomicRun(Linearized(trace))
  {
    if trace != [] {
      var before := trace[..|trace| - 1];
      InterleavingRefinesAtomic(before);
      EffectIsAtomic(MicroRun(before), trace[|trace| - 1], Linearized(before));
    }
  }

  /** The atomic history has each thread's deletes, each once and in order, except the one it is still inside. */
  lemma {:induction false} EveryDeleteTakesEffectOnce(trace: seq<Micro>, t: nat)
    ensures Begun(trace, t) == DeletesOf(Linearized(trace), t)
            + Open(MicroRun(trace), t)
  {
    if trace != [] {
      var before, m := trace[..|trace| - 1], trace[|trace| - 1];
      EveryDeleteTakesEffectOnce(before, t);
      DeletesAppend(Linearized(before), Effect(MicroRun(before), m), t);
      OneEffect(MicroRun(before), m, t);
      var begins := if m.Check? && m.t == t && t !in MicroRun(before).pending then [m.uid] else [];
      Regroup(DeletesOf(Linearized(before), t), Open(MicroRun(before), t), begins,
              DeletesOf(Effect(MicroRun(before), m), t), Open(MicroRun(trace), t));
    }
  }

  lemma {:induction false} Regroup(d: seq<string>, o: seq<string>, x: seq<string>, e: seq<string>, o': seq<string>)
    requires o + x == e + o'
    ensures (d + o) + x == (d + e) + o'
  {
    assert (d + o) + x == d + (o + x);
    assert (d + e) + o' == d + (e + o');
  }

  /** The delete of thread t that a micro step leaves open. */
  function Open(s: Shared, t: nat): seq<string> {
    if t in s.pending then [s.pending[t]] else []
  }

  lemma {:induction false} OneEffect(s: Shared, m: Micro, t: nat)
    ensures Open(s, t) + (if m.Check? && m.t == t && t !in s.pending then [m.uid] else [])
            == DeletesOf(Effect(s, m), t) + Open(MicroStep(s, m), t)
  {
    var effect := Effect(s, m);
    if effect != [] {
      assert effect[..0] == [];
    }
  }

  lemma {:induction false} DeletesAppend(ops: seq<Atomic>, more: seq<Atomic>, t: nat)
    ensures DeletesOf(ops + more, t) == DeletesOf(ops, t) + DeletesOf(more, t)
  {
    if more == [] {
      assert ops + more == ops;
    } else {
      assert (ops + more)[..|ops + more| - 1] == ops + more[..|more| - 1];
      DeletesAppend(ops, more[..|more| - 1], t);
    }
  }

  // ---- Updates, and where the interleaving differs from locking the whole delete ----

  /** A check changes no pod; the locked part removes what the thread checked, also if it was updated since. */
  lemma {:induction false} DeleteRemovesWhatWasChecked(s: Shared, t: nat, uid: string, between: Shared)
    requires t !in s.pending && uid in s.pods
    requires t in between.pending && between.pending[t] == MicroStep(s, Check(t, uid)).pending[t]
    ensures MicroStep(s, Check(t, uid)).pods == s.pods
    ensures MicroStep(between, Delete(t)).pods == between.pods - {uid}
    ensures t !in MicroStep(between, Delete(t)).pending
  {
  }

  /** The updates of an interleaving, in order. */
  function Updates(trace: seq<Micro>): seq<PodValue> {
    if trace == [] then []
    else Updates(trace[..|trace| - 1]) + if trace[|trace| - 1].Update? then [trace[|trace| - 1].pod] else []
  }

  /** The updates of an atomic history, in order. */
  function UpdatesOf(ops: seq<Atomic>): seq<PodValue> {
    if ops == [] then []
    else UpdatesOf(ops[..|ops| - 1]) + if ops[|ops| - 1].Upd? then [ops[|ops| - 1].pod] else []
  }

  lemma {:induction false} UpdatesAppend(ops: seq<Atomic>, effect: seq<Atomic>)
    requires |effect| <= 1
    ensures UpdatesOf(ops + effect) == UpdatesOf(ops) + if effect != [] && effect[0].Upd? then [effect[0].pod] else []
  {
    if effect == [] {
      assert ops + effect == ops;
    } else {
      assert (ops + effect)[..|ops|] == ops;
    }
  }

  /** The atomic history has every update once and in order. */
  lemma {:induction false} EveryUpdateTakesEffectOnce(trace: seq<Micro>)
    ensures UpdatesOf(Linearized(trace)) == Updates(trace)
  {
    if trace != [] {
      var before := trace[..|trace| - 1];
      EveryUpdateTakesEffectOnce(before);
      UpdatesAppend(Linearized(before), Effect(MicroRun(before), trace[|trace| - 1]));
    }
  }

  /** The instance of a pod updated between the check and the locked part of its delete: the update is lost. */
  lemma {:induction false} UpdateInBetweenIsLost(p: PodValue, q: PodValue)
    requires p.uid == q.uid != ""
    ensures var trace := [Update(p), Check(0, p.uid), Update(q), Delete(0)];
            && MicroRun(trace[..3]).pods == map[q.uid := q]
            && MicroRun(trace).pods == map[]
            && Linearized(trace) == [Upd(p), Upd(q), Del(0, p.uid)]
  {
    var trace := [Update(p), Check(0, p.uid), Update(q), Delete(0)];
    assert trace[..4] == trace && trace[..0] == [];
    assert trace[..1][..0] == [] && trace[..2][..1] == trace[..1] && trace[..3][..2] == trace[..2];
    assert MicroRun(trace[..1]) == Shared(map[p.uid := p], map[]);
    assert MicroRun(trace[..2]) == Shared(map[p.uid := p], map[0 := p.uid]);
    assert MicroRun(trace[..3]) == Shared(map[q.uid := q], map[0 := p.uid]);
    assert Linearized(trace[..1]) == [Upd(p)];
    assert Linearized(trace[..2]) == [Upd(p)];
    assert Linearized(trace[..3]) == [Upd(p), Upd(q)];
  }
}
