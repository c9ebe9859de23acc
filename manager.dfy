/** The cluster state store: `NodeManager` of internal/node/node_manager.go,
    with the state transitions of the handlers in internal/node/node_handler.go
    and `reschedulePods` of internal/node/pod_scheduler.go as its methods.
    Locking is left out: each method is one atomic step. */
module Manager {
  import opened Wrappers
  import opened Pods
  import opened Nodes
  import opened Scheduler
  import opened Recovery

  /** What a successful pod request reports. */
  datatype Placement = Placement(nodeId: string, podId: string)

  class NodeManager {
    var nodes: map<string, Node>
    var pods: map<string, Pod>
    var totalCpus: int

    /** What every method keeps: records stored under their own identifiers
        and creation times that order the nodes totally. */
    ghost predicate Valid()
      reads this
    {
      Ordered(nodes) && PodsKeyed(pods)
    }

    ghost function State(): Store
      reads this
    {
      Store(nodes, pods)
    }

    /** The running aggregate equals the capacity of the registered nodes. */
    ghost predicate Totalled()
      reads this
    {
      totalCpus == SumCpus(nodes)
    }

    constructor ()
      ensures nodes == map[] && pods == map[] && totalCpus == 0
      ensures Valid() && Totalled() && Consistent(State()) && Capacity(nodes)
    {
      nodes := map[];
      pods := map[];
      totalCpus := 0;
    }

    /** Stores the record under its identifier and adds its CPUs to the
        aggregate, also when it replaces a record already there. */
    method AddNode(node: Node)
      requires Valid()
      requires node.id != ""
      requires forall k :: k in nodes && k != node.id ==> nodes[k].createdAt != node.createdAt
      modifies this
      ensures Valid()
      ensures nodes == old(nodes)[node.id := node] && pods == old(pods)
      ensures totalCpus == old(totalCpus) + node.cpus
      ensures old(Totalled()) && node.id !in old(nodes) ==> Totalled()
      ensures old(Totalled()) && node.id in old(nodes) ==>
        totalCpus == SumCpus(nodes) + old(nodes)[node.id].cpus
    {
      if node.id in nodes {
        SumCpusOverwrite(nodes, node);
      } else {
        SumCpusInsertFresh(nodes, node);
      }
      nodes := nodes[node.id := node];
      totalCpus := totalCpus + node.cpus;
    }

    /** The node map itself; nothing changes. */
    method GetNodes() returns (r: map<string, Node>)
      ensures r == nodes
    {
      r := nodes;
    }

    /** The pods to move off a failed node: its own resident list while the
        node is registered, otherwise every pod that still names it. */
    method AffectedPods(failedId: string) returns (ids: seq<string>)
      requires Valid()
      ensures failedId in nodes ==> ids == nodes[failedId].pods
      ensures failedId !in nodes ==>
        Distinct(ids) && forall x :: x in ids <==> x in pods && pods[x].nodeId == failedId
    {
      if failedId in nodes {
        return nodes[failedId].pods;
      }
      ids := [];
      var rest := pods.Keys;
      while rest != {}
        invariant rest <= pods.Keys
        invariant Distinct(ids)
        invariant forall x :: x in ids <==> x in pods && x !in rest && pods[x].nodeId == failedId
        decreases rest
      {
        var x :| x in rest;
        var p := pods[x];
        if p.nodeId == failedId {
          ids := ids + [p.id];
        }
        rest := rest - {x};
      }
    }

    /** One turn of the rescheduling loop: a pod that still exists is
        cleared, then placed with first-fit if some node has room. */
    method RescheduleOne(podId: string)
      requires Valid()
      modifies this
      ensures Valid()
      ensures State() == RescheduleStep(old(State()), podId)
      ensures totalCpus == old(totalCpus)
    {
      if podId !in pods {
        return;
      }
      ghost var start := State();
      var p := pods[podId];
      p := p.(nodeId := "", status := PodStatus.Pending);
      pods := pods[podId := p];
      var r, nodes' := SchedulePod(p, nodes, "first_fit");
      ScheduleIsStep(start, podId, r, nodes');
      if r.Ok? {
        PlaceKeepsOrdered(start.nodes, r.value, p);
      }
      nodes := nodes';
      if r.Ok? {
        p := p.(nodeId := r.value, status := PodStatus.Running);
        pods := pods[podId := p];
      }
    }

    /** Clears and re-places, with first-fit, every pod `AffectedPods` lists. */
    method ReschedulePods(failedId: string) returns (ghost moved: seq<string>)
      requires Valid()
      modifies this
      ensures Valid()
      ensures failedId in old(nodes) ==> moved == old(nodes)[failedId].pods
      ensures failedId !in old(nodes) ==>
        Distinct(moved) && forall x :: x in moved <==> x in old(pods) && old(pods)[x].nodeId == failedId
      ensures State() == RescheduleAll(old(State()), moved)
      ensures totalCpus == old(totalCpus) && SumCpus(nodes) == SumCpus(old(nodes))
    {
      var podsToReschedule := AffectedPods(failedId);
      moved := podsToReschedule;
      ghost var start := State();
      assert start == old(State());
      for i := 0 to |podsToReschedule|
        invariant Valid()
        invariant State() == RescheduleAll(start, podsToReschedule[..i])
        invariant totalCpus == old(totalCpus)
      {
        assert podsToReschedule[..i + 1][..i] == podsToReschedule[..i];
        RescheduleOne(podsToReschedule[i]);
      }
      assert podsToReschedule[..|podsToReschedule|] == podsToReschedule;
      assert State() == RescheduleAll(start, podsToReschedule);
      SumCpusSameCapacity(start.nodes, nodes);
    }

    /** Restarts a node's container; when it is still not healthy afterwards
        its pods are rescheduled, but the node itself stays registered. */
    method RestartNode(nodeId: string, env: RestartEnv) returns (r: Outcome)
      requires Valid()
      modifies this
      ensures Valid()
      ensures State() == RestartEffect(old(State()), nodeId, env)
      ensures totalCpus == old(totalCpus)
      ensures nodeId !in old(nodes) ==> r == Fail(NodeNotFound) && State() == old(State())
      ensures nodeId in old(nodes) && !(env.clientOk && env.restartOk) ==>
        r == Fail(BackendError) && State() == old(State())
      ensures nodeId in old(nodes) && env.clientOk && env.restartOk && env.recheck != Up(true) ==>
        && r == Fail(RestartFailed) && nodeId in nodes
        && State() == RescheduleAll(old(State()), old(nodes)[nodeId].pods)
      ensures nodeId in old(nodes) && env.clientOk && env.restartOk && env.recheck == Up(true) ==>
        r == Pass && State() == old(State())
      ensures old(Capacity(nodes)) ==> Capacity(nodes)
    {
      if nodeId !in nodes {
        return Fail(NodeNotFound);
      }
      if !env.clientOk {
        return Fail(BackendError);
      }
      if !env.restartOk {
        return Fail(BackendError);
      }
      if env.recheck != Up(true) {
        ghost var start := State();
        ghost var moved := ReschedulePods(nodeId);
        if Capacity(start.nodes) {
          RescheduleKeepsCapacity(start, moved);
        }
        return Fail(RestartFailed);
      }
      return Pass;
    }

    /** Registers a node once the backend has created its container: no
        pods, nothing used, Running, created now. */
    method AddNodeHandler(created: Result<string>, cpus: int, now: int) returns (r: Result<string>)
      requires Valid()
      requires created.Ok? ==>
        created.value != "" && forall k :: k in nodes && k != created.value ==> nodes[k].createdAt != now
      modifies this
      ensures Valid()
      ensures created.Err? ==>
        r == Err(BackendError) && nodes == old(nodes) && pods == old(pods) && totalCpus == old(totalCpus)
      ensures created.Ok? ==>
        && r == created && pods == old(pods)
        && nodes == old(nodes)[created.value := Node(created.value, cpus, 0, NodeStatus.Running, [], now)]
        && totalCpus == old(totalCpus) + cpus
      ensures created.Ok? && created.value !in old(nodes) ==>
        (old(Totalled()) ==> Totalled()) && (old(Consistent(State())) ==> Consistent(State()))
      ensures created.Ok? && cpus >= 0 && old(Capacity(nodes)) ==> Capacity(nodes)
    {
      if created.Err? {
        return Err(BackendError);
      }
      var id := created.value;
      var newNode := Node(id, cpus, 0, NodeStatus.Running, [], now);
      AddNode(newNode);
      r := Ok(id);
    }

    /** Creates a pod, schedules it with the named algorithm and, on success,
        records it Running on the chosen node. On failure no pod is recorded. */
    method AddPodHandler(cpus: int, algorithm: string, uuid: string) returns (r: Result<Placement>)
      requires Valid()
      modifies this
      ensures Valid()
      ensures totalCpus == old(totalCpus)
      ensures r.Err? ==>
        && r.error == NoCapacity && !Feasible(PolicyFor(algorithm), old(nodes), cpus)
        && nodes == old(nodes) && pods == old(pods)
      ensures r.Ok? ==>
        && r.value.podId == CreatePod(cpus, uuid).id
        && r.value.nodeId in old(nodes)
        && Chosen(PolicyFor(algorithm), old(nodes), cpus, r.value.nodeId)
        && State() == Commit(old(State()), r.value.nodeId, CreatePod(cpus, uuid))
        && pods[r.value.podId] == Pod(r.value.podId, cpus, r.value.nodeId, PodStatus.Running)
        && r.value.podId in nodes[r.value.nodeId].pods
      ensures old(Consistent(State()) && Capacity(nodes)) && CreatePod(cpus, uuid).id !in old(pods) ==>
        Consistent(State()) && Capacity(nodes)
      ensures old(Capacity(nodes)) ==> Capacity(nodes)
      ensures cpus >= 0 && old(forall n :: n in nodes ==> nodes[n].usedCpus >= 0) ==>
        forall n :: n in nodes ==> nodes[n].usedCpus >= 0
    {
      var newPod := CreatePod(cpus, uuid);
      ghost var start := State();
      var nodeId, nodes' := SchedulePod(newPod, nodes, algorithm);
      if nodeId.Ok? {
        PlaceKeepsOrdered(nodes, nodeId.value, newPod);
        if Capacity(nodes) {
          PlaceKeepsCapacity(nodes, nodeId.value, newPod);
        }
      }
      nodes := nodes';
      if nodeId.Err? {
        return Err(nodeId.error);
      }
      newPod := newPod.(nodeId := nodeId.value, status := PodStatus.Running);
      pods := pods[newPod.id := newPod];
      r := Ok(Placement(nodeId.value, newPod.id));
      if Consistent(start) && Capacity(start.nodes) && newPod.id !in start.pods {
        assert Unlisted(start.nodes, newPod.id) by {
          forall n | n in start.nodes ensures newPod.id !in start.nodes[n].pods {
          }
        }
        CommitKeepsLinked(start, "", nodeId.value, CreatePod(cpus, uuid));
      }
    }

    /** Removes a node whose container the backend has removed, takes its
        CPUs off the aggregate, then reschedules the pods that named it. */
    method DeleteNodeHandler(nodeId: string, removed: Outcome) returns (r: Outcome, ghost moved: seq<string>)
      requires Valid()
      modifies this
      ensures Valid()
      ensures removed.Fail? ==>
        r == Fail(BackendError) && State() == old(State()) && totalCpus == old(totalCpus)
      ensures removed.Pass? && nodeId !in old(nodes) ==>
        r == Fail(NodeNotFound) && State() == old(State()) && totalCpus == old(totalCpus)
      ensures removed.Pass? && nodeId in old(nodes) ==>
        && r == Pass && nodeId !in nodes
        && totalCpus == old(totalCpus) - old(nodes)[nodeId].cpus
        && Distinct(moved) && (forall x :: x in moved <==> x in old(pods) && old(pods)[x].nodeId == nodeId)
        && State() == RescheduleAll(Store(old(nodes) - {nodeId}, old(pods)), moved)
      ensures old(Totalled()) ==> Totalled()
      ensures old(Consistent(State()) && Capacity(nodes)) ==> Consistent(State()) && Capacity(nodes)
      ensures old(Capacity(nodes)) ==> Capacity(nodes)
      ensures r == Pass ==> forall x :: x in pods ==> pods[x].nodeId != nodeId
    {
      moved := [];
      if removed.Fail? {
        return Fail(BackendError), moved;
      }
      if nodeId !in nodes {
        return Fail(NodeNotFound), moved;
      }
      ghost var start := State();
      var nodeObj := nodes[nodeId];
      SumCpusRemove(nodes, nodeId);
      nodes := nodes - {nodeId};
      totalCpus := totalCpus - nodeObj.cpus;
      ghost var deleted := State();
      assert Valid();
      moved := ReschedulePods(nodeId);
      assert State() == RescheduleAll(deleted, moved);
      RescheduleOutcome(deleted, moved);
      if Capacity(start.nodes) {
        RescheduleKeepsCapacity(deleted, moved);
      }
      r := Pass;
      if Consistent(start) && Capacity(start.nodes) {
        DeleteThenRescheduleConsistent(start, nodeId, moved);
      }
    }

    /** The listing: one copy of every node, its status replaced by what the
        health probe reports; the stored records are left as they are. */
    method ListNodesHandler(probe: string -> Probe) returns (listed: seq<Node>)
      requires Valid()
      ensures forall i :: 0 <= i < |listed| ==>
        listed[i].id in nodes && listed[i] == nodes[listed[i].id].(status := ObservedStatus(probe(listed[i].id)))
      ensures forall k :: k in nodes ==> nodes[k].(status := ObservedStatus(probe(k))) in listed
      ensures forall i, j :: 0 <= i < j < |listed| ==> listed[i].id != listed[j].id
    {
      listed := [];
      var current := GetNodes();
      var rest := current.Keys;
      while rest != {}
        invariant rest <= current.Keys
        invariant forall i :: 0 <= i < |listed| ==>
          listed[i].id in nodes && listed[i].id !in rest &&
          listed[i] == nodes[listed[i].id].(status := ObservedStatus(probe(listed[i].id)))
        invariant forall k :: k in nodes && k !in rest ==> nodes[k].(status := ObservedStatus(probe(k))) in listed
        invariant forall i, j :: 0 <= i < j < |listed| ==> listed[i].id != listed[j].id
        decreases rest
      {
        var k :| k in rest;
        var node := current[k];
        match probe(node.id) {
          case Unreachable =>
            node := node.(status := NodeStatus.Unhealthy);
          case Up(running) =>
            node := node.(status := if running then NodeStatus.Running else NodeStatus.Stopped);
        }
        listed := listed + [node];
        rest := rest - {k};
      }
    }
  }
}
