/** The pod record of internal/pod/pod.go. */
module Pods {

  datatype PodStatus = Pending | Running | Failed

  /** A CPU-bound workload; `nodeId == ""` means it is not placed on any node. */
  datatype Pod = Pod(id: string, cpus: int, nodeId: string, status: PodStatus)

  /** Every record of a pod map is stored under its own identifier. */
  ghost predicate PodsKeyed(pods: map<string, Pod>)
  {
    forall p :: p in pods ==> pods[p].id == p
  }

  const IdPrefix: string := "pod_"

  /** A new pod as CreatePod builds it. The random uuid is a parameter. */
  function CreatePod(cpus: int, uuid: string): (p: Pod)
    ensures p.status == Pending && p.nodeId == ""
    ensures p.cpus == cpus
    ensures |p.id| == |IdPrefix| + |uuid|
    ensures p.id[..|IdPrefix|] == IdPrefix && p.id[|IdPrefix|..] == uuid
  {
    Pod(IdPrefix + uuid, cpus, "", Pending)
  }

  /** Pod identifiers are exactly as distinct as the uuids they are made from. */
  lemma CreatePodIdDeterminesUuid(cpus1: int, uuid1: string, cpus2: int, uuid2: string)
    ensures CreatePod(cpus1, uuid1).id == CreatePod(cpus2, uuid2).id <==> uuid1 == uuid2
  {
  }
}
