/** Failure recovery: what `reschedulePods` (internal/node/pod_scheduler.go)
    and the failure path of `RestartNode` (internal/node/node_manager.go) do
    to the store, as functions of its state, and the store's cross-reference
    invariant with the lemmas that say which transitions keep it. */
module Recovery {
  import opened Wrappers
  import opened Pods
  import opened Nodes
  import opened Scheduler

  /** The two maps the store owns. */
  datatype Store = Store(nodes: map<string, Node>, pods: map<string, Pod>)

  /** Sum of the CPU requests of the listed pods that exist. */
  function ResidentCpus(ids: seq<string>, pods: map<string, Pod>): int
  {
    if ids == [] then 0
    else
      var last := ids[|ids| - 1];
      ResidentCpus(ids[..|ids| - 1], pods) + (if last in pods then pods[last].cpus else 0)
  }

  /** The sum only looks at the listed pods. */
  lemma {:induction false} ResidentCpusFrame(ids: seq<string>, a: map<string, Pod>, b: map<string, Pod>)
    requires forall x :: x in ids ==> (x in a <==> x in b) && (x in a ==> a[x].cpus == b[x].cpus)
    ensures ResidentCpus(ids, a) == ResidentCpus(ids, b)
  {
    if ids != [] {
      ResidentCpusFrame(ids[..|ids| - 1], a, b);
    }
  }

  lemma ResidentCpusAppend(ids: seq<string>, x: string, pods: map<string, Pod>)
    requires x in pods
    ensures ResidentCpus(ids + [x], pods) == ResidentCpus(ids, pods) + pods[x].cpus
  {
    assert (ids + [x])[..|ids|] == ids;
  }

  /** The cross-reference invariant, except that pods still naming the node
      `tolerated` (one that has just been deleted) may dangle. */
  ghost predicate Linked(s: Store, tolerated: string)
  {
    // every pod record is stored under its own identifier
    && PodsKeyed(s.pods)
    // an assigned pod is on the resident list of the node it names
    && (forall p :: p in s.pods && s.pods[p].nodeId != "" && s.pods[p].nodeId != tolerated ==>
          s.pods[p].nodeId in s.nodes && p in s.nodes[s.pods[p].nodeId].pods)
    // a resident is a pod that names this node
    && (forall n, i :: n in s.nodes && 0 <= i < |s.nodes[n].pods| ==>
          s.nodes[n].pods[i] in s.pods && s.pods[s.nodes[n].pods[i]].nodeId == n)
    // no pod is listed twice on one node
    && (forall n :: n in s.nodes ==> Distinct(s.nodes[n].pods))
    // used CPUs are the CPUs of the residents
    && (forall n :: n in s.nodes ==> s.nodes[n].usedCpus == ResidentCpus(s.nodes[n].pods, s.pods))
  }

  /** Store and node records agree: every assigned pod and every resident
      entry point at each other, and used CPUs are what the residents ask for. */
  ghost predicate Consistent(s: Store)
  {
    Linked(s, "")
  }

  ghost predicate Unlisted(nodes: map<string, Node>, x: string)
  {
    forall n :: n in nodes ==> x !in nodes[n].pods
  }

  /** Node records keep their identity, capacity, status and creation time,
      resident lists only grow, and pod records keep identifier and CPUs. */
  ghost predicate SameFrame(s: Store, t: Store)
  {
    && t.nodes.Keys == s.nodes.Keys
    && (forall k :: k in s.nodes ==>
          && t.nodes[k].id == s.nodes[k].id && t.nodes[k].cpus == s.nodes[k].cpus
          && t.nodes[k].status == s.nodes[k].status && t.nodes[k].createdAt == s.nodes[k].createdAt
          && s.nodes[k].pods <= t.nodes[k].pods)
    && t.pods.Keys == s.pods.Keys
    && (forall p :: p in s.pods ==> t.pods[p].id == s.pods[p].id && t.pods[p].cpus == s.pods[p].cpus)
  }

  function Detach(p: Pod): Pod
  {
    p.(nodeId := "", status := PodStatus.Pending)
  }

  function Attach(p: Pod, n: string): Pod
  {
    p.(nodeId := n, status := PodStatus.Running)
  }

  /** One iteration of the rescheduling loop: a missing pod is skipped;
      otherwise its assignment is cleared and first-fit re-places it. */
  ghost function RescheduleStep(s: Store, podId: string): (t: Store)
    ensures SameFrame(s, t)
  {
    if podId !in s.pods then s
    else
      var p := Detach(s.pods[podId]);
      var pods := s.pods[podId := p];
      match FirstFitChoice(s.nodes, p.cpus)
      case None => Store(s.nodes, pods)
      case Some(n) => Store(Place(s.nodes, n, p), pods[podId := Attach(p, n)])
  }

  /** A first-fit placement of the detached pod, as the scheduler returns it,
      is exactly one rescheduling step. */
  lemma ScheduleIsStep(s: Store, podId: string, r: Result<string>, nodes': map<string, Node>)
    requires podId in s.pods && DistinctCreation(s.nodes)
    requires Scheduled(FirstFit, s.nodes, Detach(s.pods[podId]), r, nodes')
    ensures r.Err? ==> RescheduleStep(s, podId) == Store(s.nodes, s.pods[podId := Detach(s.pods[podId])])
    ensures r.Ok? ==>
      RescheduleStep(s, podId) == Store(nodes', s.pods[podId := Attach(Detach(s.pods[podId]), r.value)])
  {
    FirstFitMatchesChoice(s.nodes, Detach(s.pods[podId]), r, nodes');
  }

  /** The rescheduling loop over `ids`, in order. */
  ghost function RescheduleAll(s: Store, ids: seq<string>): (t: Store)
    ensures SameFrame(s, t)
  {
    if ids == [] then s
    else RescheduleStep(RescheduleAll(s, ids[..|ids| - 1]), ids[|ids| - 1])
  }

  /** Deleting a node leaves the invariant intact except for the pods that named it. */
  lemma DeleteKeepsLinked(s: Store, failed: string)
    requires Consistent(s) && failed in s.nodes
    ensures Linked(Store(s.nodes - {failed}, s.pods), failed)
  {
  }

  /** A pod that names a node absent from the map is on no resident list. */
  lemma DanglingIsUnlisted(s: Store, tolerated: string, x: string)
    requires Linked(s, tolerated) && tolerated !in s.nodes
    requires x in s.pods && s.pods[x].nodeId == tolerated
    ensures Unlisted(s.nodes, x)
  {
    forall n | n in s.nodes ensures x !in s.nodes[n].pods {
    }
  }

  /** Clearing the assignment of a pod that no node lists keeps the invariant. */
  lemma DetachKeepsLinked(s: Store, tolerated: string, x: string)
    requires Linked(s, tolerated) && x in s.pods && Unlisted(s.nodes, x)
    ensures Linked(Store(s.nodes, s.pods[x := Detach(s.pods[x])]), tolerated)
  {
    var pods := s.pods[x := Detach(s.pods[x])];
    forall n | n in s.nodes ensures s.nodes[n].usedCpus == ResidentCpus(s.nodes[n].pods, pods) {
      ResidentCpusFrame(s.nodes[n].pods, s.pods, pods);
    }
  }

  /** The store after `q` is committed to node `n`. */
  ghost function Commit(s: Store, n: string, q: Pod): Store
    requires n in s.nodes
  {
    Store(Place(s.nodes, n, q), s.pods[q.id := Attach(q, n)])
  }

  /** After a commit, every node's used CPUs still match its resident list. */
  lemma CommitKeepsUsed(s: Store, tolerated: string, n: string, q: Pod, t: Store)
    requires Linked(s, tolerated)
    requires n in s.nodes && Unlisted(s.nodes, q.id) && t == Commit(s, n, q)
    ensures forall m :: m in t.nodes ==> t.nodes[m].usedCpus == ResidentCpus(t.nodes[m].pods, t.pods)
  {
    forall m | m in t.nodes ensures t.nodes[m].usedCpus == ResidentCpus(t.nodes[m].pods, t.pods) {
      ResidentCpusFrame(s.nodes[m].pods, s.pods, t.pods);
      if m == n {
        ResidentCpusAppend(s.nodes[n].pods, q.id, t.pods);
      }
    }
  }

  /** After a commit, every resident entry still names its node, and lists stay duplicate-free. */
  lemma CommitKeepsResidents(s: Store, tolerated: string, n: string, q: Pod, t: Store)
    requires Linked(s, tolerated)
    requires n in s.nodes && Unlisted(s.nodes, q.id) && t == Commit(s, n, q)
    ensures forall m, i :: m in t.nodes && 0 <= i < |t.nodes[m].pods| ==>
      t.nodes[m].pods[i] in t.pods && t.pods[t.nodes[m].pods[i]].nodeId == m
    ensures forall m :: m in t.nodes ==> Distinct(t.nodes[m].pods)
  {
    forall m, i | m in t.nodes && 0 <= i < |t.nodes[m].pods|
      ensures t.nodes[m].pods[i] in t.pods && t.pods[t.nodes[m].pods[i]].nodeId == m
    {
      if m != n || i < |s.nodes[n].pods| {
        assert t.nodes[m].pods[i] == s.nodes[m].pods[i];
      }
    }
  }

  /** After a commit, every assigned pod is still on its node's resident list. */
  lemma CommitKeepsAssignments(s: Store, tolerated: string, n: string, q: Pod, t: Store)
    requires Linked(s, tolerated)
    requires n in s.nodes && t == Commit(s, n, q)
    ensures forall p :: p in t.pods && t.pods[p].nodeId != "" && t.pods[p].nodeId != tolerated ==>
      t.pods[p].nodeId in t.nodes && p in t.nodes[t.pods[p].nodeId].pods
  {
    forall p | p in t.pods && t.pods[p].nodeId != "" && t.pods[p].nodeId != tolerated
      ensures t.pods[p].nodeId in t.nodes && p in t.nodes[t.pods[p].nodeId].pods
    {
      if p != q.id {
        assert p in s.nodes[t.pods[p].nodeId].pods;
      }
    }
  }

  /** Committing a pod that no node lists to an eligible node keeps the
      invariant and every node within its capacity. */
  lemma CommitKeepsLinked(s: Store, tolerated: string, n: string, q: Pod)
    requires Linked(s, tolerated) && Capacity(s.nodes)
    requires n in s.nodes && Eligible(s.nodes[n], q.cpus) && Unlisted(s.nodes, q.id)
    ensures Linked(Commit(s, n, q), tolerated)
    ensures Capacity(Commit(s, n, q).nodes)
  {
    var t := Commit(s, n, q);
    CommitKeepsUsed(s, tolerated, n, q, t);
    CommitKeepsResidents(s, tolerated, n, q, t);
    CommitKeepsAssignments(s, tolerated, n, q, t);
    PlaceKeepsCapacity(s.nodes, n, q);
    assert PodsKeyed(t.pods);
  }

  /** One rescheduling step on a pod no node lists keeps the invariant and
      leaves that pod unassigned or assigned to an existing node. */
  lemma StepKeepsLinked(s: Store, tolerated: string, x: string)
    requires Linked(s, tolerated) && Capacity(s.nodes)
    requires x in s.pods && Unlisted(s.nodes, x)
    ensures Linked(RescheduleStep(s, x), tolerated) && Capacity(RescheduleStep(s, x).nodes)
    ensures RescheduleStep(s, x).pods[x].nodeId == "" || RescheduleStep(s, x).pods[x].nodeId in s.nodes
    ensures forall y :: y in s.pods && y != x ==> RescheduleStep(s, x).pods[y] == s.pods[y]
  {
    DetachKeepsLinked(s, tolerated, x);
    var p := Detach(s.pods[x]);
    var d := Store(s.nodes, s.pods[x := p]);
    match FirstFitChoice(s.nodes, p.cpus)
    case None =>
    case Some(n) =>
      assert p.id == x;
      CommitKeepsLinked(d, tolerated, n, p);
      assert RescheduleStep(s, x) == Commit(d, n, p);
  }

  /** Rescheduling the pods of a node that is gone, one by one. */
  lemma {:induction false} RescheduleDanglingKeepsLinked(s: Store, failed: string, ids: seq<string>)
    requires failed != "" && failed !in s.nodes && Linked(s, failed) && Capacity(s.nodes)
    requires Distinct(ids)
    requires forall x :: x in ids ==> x in s.pods && s.pods[x].nodeId == failed
    ensures Linked(RescheduleAll(s, ids), failed) && Capacity(RescheduleAll(s, ids).nodes)
    ensures forall x :: x in ids ==> RescheduleAll(s, ids).pods[x].nodeId != failed
    ensures forall x :: x in s.pods && x !in ids ==> RescheduleAll(s, ids).pods[x] == s.pods[x]
  {
    if ids != [] {
      var pre, x := ids[..|ids| - 1], ids[|ids| - 1];
      assert forall y :: y in pre ==> y in ids;
      RescheduleDanglingKeepsLinked(s, failed, pre);
      var u := RescheduleAll(s, pre);
      assert x !in pre;
      DanglingIsUnlisted(u, failed, x);
      StepKeepsLinked(u, failed, x);
      assert forall y :: y in ids ==> y in pre || y == x;
      assert failed !in u.nodes;
      forall y | y in pre ensures RescheduleAll(s, ids).pods[y].nodeId != failed {
        assert y != x && y in u.pods;
      }
    }
  }

  /** Deleting a node and then rescheduling every pod that names it (the
      delete path) restores the full invariant: no pod names the deleted
      node any more and every node stays within its capacity. */
  lemma DeleteThenRescheduleConsistent(s: Store, failed: string, ids: seq<string>)
    requires Consistent(s) && Capacity(s.nodes) && failed in s.nodes && failed != ""
    requires Distinct(ids)
    requires forall x :: x in ids <==> x in s.pods && s.pods[x].nodeId == failed
    ensures var t := RescheduleAll(Store(s.nodes - {failed}, s.pods), ids);
      && Consistent(t) && Capacity(t.nodes)
      && failed !in t.nodes
      && forall x :: x in t.pods ==> t.pods[x].nodeId != failed
  {
    var d := Store(s.nodes - {failed}, s.pods);
    DeleteKeepsLinked(s, failed);
    RescheduleDanglingKeepsLinked(d, failed, ids);
  }

  /** Rescheduling never pushes a node past its capacity, and never makes a
      used-CPU count negative while every pod asks for a non-negative amount. */
  lemma {:induction false} RescheduleKeepsCapacity(s: Store, ids: seq<string>)
    requires Capacity(s.nodes)
    ensures Capacity(RescheduleAll(s, ids).nodes)
    ensures (forall p :: p in s.pods ==> s.pods[p].cpus >= 0) && (forall n :: n in s.nodes ==> s.nodes[n].usedCpus >= 0)
      ==> forall n :: n in s.nodes ==> RescheduleAll(s, ids).nodes[n].usedCpus >= 0
  {
    if ids != [] {
      RescheduleKeepsCapacity(s, ids[..|ids| - 1]);
    }
  }

  /** Pod `x` is unassigned and Pending, or Running on a node that lists it. */
  ghost predicate Settled(t: Store, x: string)
    requires x in t.pods
  {
    || (t.pods[x].nodeId == "" && t.pods[x].status == PodStatus.Pending)
    || (t.pods[x].status == PodStatus.Running && t.pods[x].nodeId in t.nodes && x in t.nodes[t.pods[x].nodeId].pods)
  }

  /** A rescheduling step settles its own pod and leaves every other pod record alone. */
  lemma StepSettles(u: Store, x: string)
    requires PodsKeyed(u.pods) && x in u.pods
    ensures Settled(RescheduleStep(u, x), x)
    ensures forall y :: y in u.pods && y != x ==> RescheduleStep(u, x).pods[y] == u.pods[y]
  {
  }

  /** Later steps keep a settled pod settled: they do not touch its record
      and resident lists only grow. */
  lemma SettledPersists(u: Store, t: Store, x: string)
    requires x in u.pods && Settled(u, x) && SameFrame(u, t) && t.pods[x] == u.pods[x]
    ensures Settled(t, x)
  {
    if u.pods[x].status == PodStatus.Running && u.pods[x].nodeId in u.nodes {
      assert u.nodes[u.pods[x].nodeId].pods <= t.nodes[u.pods[x].nodeId].pods;
    }
  }

  /** Each listed pod that exists ends up unassigned and Pending, or Running
      on a node whose resident list holds it; unlisted pods are untouched. */
  lemma {:induction false} RescheduleOutcome(s: Store, ids: seq<string>)
    requires PodsKeyed(s.pods)
    ensures forall x :: x in ids && x in s.pods ==> Settled(RescheduleAll(s, ids), x)
    ensures forall x :: x in s.pods && x !in ids ==> RescheduleAll(s, ids).pods[x] == s.pods[x]
  {
    if ids != [] {
      var pre, x := ids[..|ids| - 1], ids[|ids| - 1];
      RescheduleOutcome(s, pre);
      var u := RescheduleAll(s, pre);
      var t := RescheduleAll(s, ids);
      assert t == RescheduleStep(u, x);
      assert PodsKeyed(u.pods);
      assert forall y :: y in ids ==> y in pre || y == x;
      if x in u.pods {
        StepSettles(u, x);
      }
      forall y | y in ids && y in s.pods && y != x
        ensures Settled(t, y)
      {
        SettledPersists(u, t, y);
      }
    }
  }

  /** What the container backend reports during a restart attempt. */
  datatype RestartEnv = RestartEnv(clientOk: bool, restartOk: bool, recheck: Probe)

  /** The store after `RestartNode`: only a failed post-restart check changes
      it, by rescheduling the node's own resident list while the node stays. */
  ghost function RestartEffect(s: Store, id: string, env: RestartEnv): (t: Store)
    ensures SameFrame(s, t)
  {
    if id in s.nodes && env.clientOk && env.restartOk && env.recheck != Up(true)
    then RescheduleAll(s, s.nodes[id].pods)
    else s
  }

  /** On the restart failure path the node is not removed first, so
      first-fit can put its pod straight back on it: the pod is then listed
      twice and its CPUs are counted twice, and the invariant is lost. */
  lemma RestartFailureDuplicatesResident()
    ensures var s := Store(map["n1" := Node("n1", 4, 1, NodeStatus.Running, ["p1"], 0)],
                           map["p1" := Pod("p1", 1, "n1", PodStatus.Running)]);
            var t := RestartEffect(s, "n1", RestartEnv(true, true, Unreachable));
            && Consistent(s)
            && t.nodes["n1"].pods == ["p1", "p1"] && t.nodes["n1"].usedCpus == 2
            && t.pods["p1"].nodeId == "n1"
            && !Consistent(t)
  {
    var n1 := Node("n1", 4, 1, NodeStatus.Running, ["p1"], 0);
    var s := Store(map["n1" := n1], map["p1" := Pod("p1", 1, "n1", PodStatus.Running)]);
    assert Consistent(s) by {
      assert ["p1"][..0] == [];
      assert ResidentCpus(["p1"], s.pods) == 1;
      assert PodsKeyed(s.pods);
    }
    var p := Detach(s.pods["p1"]);
    assert FirstFitChoice(s.nodes, p.cpus) == Some("n1") by {
      assert Eligible(n1, 1);
    }
    var t := RescheduleStep(s, "p1");
    assert RestartEffect(s, "n1", RestartEnv(true, true, Unreachable)) == t by {
      assert ["p1"][..0] == [];
      assert RescheduleAll(s, ["p1"]) == t;
    }
    assert t == Store(Place(s.nodes, "n1", p), s.pods["p1" := Attach(p, "n1")]);
    assert t.nodes["n1"].pods == ["p1", "p1"];
    assert !Consistent(t) by {
      assert t.nodes["n1"].pods[0] == t.nodes["n1"].pods[1];
    }
  }
}
