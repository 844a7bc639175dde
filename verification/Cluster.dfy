/** The pods the agent lists and the parts of them it reads. */
module Cluster {

  // `cpuRequest` is the container's whole-number CPU request
  datatype ContainerSpec = ContainerSpec(name: string, cpuRequest: nat)

  datatype ContainerStatus = ContainerStatus(name: string, containerId: string)

  datatype PodItem = PodItem(
    name: string, namespace: string, uid: string, qosClass: string,
    containers: seq<ContainerSpec>, statuses: seq<ContainerStatus>)

  const GUARANTEED := "Guaranteed"

  /** The id of the first status with the container's name, or "" when there is none. */
  function ContainerIdOf(statuses: seq<ContainerStatus>, name: string): string {
    if statuses == [] then ""
    else if statuses[0].name == name then statuses[0].containerId
    else ContainerIdOf(statuses[1..], name)
  }

  /** The k-th status is the first of this name. */
  ghost predicate FirstStatus(statuses: seq<ContainerStatus>, name: string, k: nat) {
    && k < |statuses| && statuses[k].name == name
    && forall l :: 0 <= l < k ==> statuses[l].name != name
  }

  /** `id` is the id of the first status of this name, or "" when no status has it. */
  ghost predicate IsContainerId(statuses: seq<ContainerStatus>, name: string, id: string) {
    && (forall k: nat :: FirstStatus(statuses, name, k) ==> id == statuses[k].containerId)
    && ((forall k :: 0 <= k < |statuses| ==> statuses[k].name != name) ==> id == "")
  }

  lemma {:induction false} ContainerIdOfFirst(statuses: seq<ContainerStatus>, name: string, k: nat)
    requires FirstStatus(statuses, name, k)
    ensures ContainerIdOf(statuses, name) == statuses[k].containerId
  {
    if k > 0 {
      assert statuses[0].name != name;
      assert forall l :: 0 <= l < k - 1 ==> statuses[1..][l] == statuses[l + 1];
      ContainerIdOfFirst(statuses[1..], name, k - 1);
    }
  }

  lemma {:induction false} ContainerIdOfNone(statuses: seq<ContainerStatus>, name: string)
    requires forall k :: 0 <= k < |statuses| ==> statuses[k].name != name
    ensures ContainerIdOf(statuses, name) == ""
  {
    if statuses != [] {
      ContainerIdOfNone(statuses[1..], name);
    }
  }

  lemma {:induction false} ContainerIdIsFirst(statuses: seq<ContainerStatus>, name: string)
    ensures IsContainerId(statuses, name, ContainerIdOf(statuses, name))
  {
    forall k: nat | FirstStatus(statuses, name, k)
      ensures ContainerIdOf(statuses, name) == statuses[k].containerId
    {
      ContainerIdOfFirst(statuses, name, k);
    }
    if forall k :: 0 <= k < |statuses| ==> statuses[k].name != name {
      ContainerIdOfNone(statuses, name);
    }
  }

  method FindContainerId(statuses: seq<ContainerStatus>, name: string) returns (id: string)
    ensures id == ContainerIdOf(statuses, name) && IsContainerId(statuses, name, id)
  {
    ContainerIdIsFirst(statuses, name);
    for i := 0 to |statuses|
      invariant ContainerIdOf(statuses, name) == ContainerIdOf(statuses[i..], name)
    {
      if statuses[i].name == name {
        return statuses[i].containerId;
      }
    }
    return "";
  }

  /** One container to place: its name, its runtime id and the CPUs it asked for. */
  datatype Job = Job(name: string, containerId: string, cpus: nat)

  function JobOf(p: PodItem, c: nat): Job
    requires c < |p.containers|
  {
    Job(p.containers[c].name, ContainerIdOf(p.statuses, p.containers[c].name), p.containers[c].cpuRequest)
  }

  /** The first n containers of a pod. */
  function PodJobsTo(p: PodItem, n: nat): (jobs: seq<Job>)
    requires n <= |p.containers|
    ensures |jobs| == n
  {
    if n == 0 then [] else PodJobsTo(p, n - 1) + [JobOf(p, n - 1)]
  }

  function PodJobs(p: PodItem): seq<Job> {
    PodJobsTo(p, |p.containers|)
  }

  lemma {:induction false} PodJobsAt(p: PodItem, n: nat, m: nat)
    requires m < n <= |p.containers|
    ensures PodJobsTo(p, n)[m] == JobOf(p, m)
  {
    if m < n - 1 {
      PodJobsAt(p, n - 1, m);
    }
  }

  /** The containers of every listed pod with this name and namespace, in list order. */
  function JobsNamed(pods: seq<PodItem>, name: string, namespace: string): seq<Job> {
    if pods == [] then []
    else
      var init := JobsNamed(pods[..|pods| - 1], name, namespace);
      var p := pods[|pods| - 1];
      if p.name == name && p.namespace == namespace then init + PodJobs(p) else init
  }

  /** Total CPUs asked for by a list of containers. */
  function Total(jobs: seq<Job>): nat {
    if jobs == [] then 0 else Total(jobs[..|jobs| - 1]) + jobs[|jobs| - 1].cpus
  }

  /** A pod's containers in its order, each with its name, the id of its first status and its request. */
  lemma {:induction false} PodJobsInOrder(p: PodItem, m: nat)
    requires m < |p.containers|
    ensures var job := PodJobs(p)[m];
            && job.name == p.containers[m].name && job.cpus == p.containers[m].cpuRequest
            && IsContainerId(p.statuses, p.containers[m].name, job.containerId)
  {
    PodJobsAt(p, |p.containers|, m);
    ContainerIdIsFirst(p.statuses, p.containers[m].name);
  }

  /** Pod by pod: every listed pod of the name and namespace adds its containers and their requests, also a second. */
  lemma {:induction false} JobsInOrder(pods: seq<PodItem>, p: PodItem, name: string, namespace: string)
    ensures JobsNamed([], name, namespace) == [] && |PodJobs(p)| == |p.containers|
    ensures JobsNamed(pods + [p], name, namespace)
            == JobsNamed(pods, name, namespace) + if p.name == name && p.namespace == namespace then PodJobs(p) else []
  {
    assert (pods + [p])[..|pods|] == pods;
  }

  lemma {:induction false} TotalAddsUp(jobs: seq<Job>, job: Job)
    ensures Total([]) == 0 && Total(jobs + [job]) == Total(jobs) + job.cpus
  {
    assert (jobs + [job])[..|jobs|] == jobs;
  }
}
