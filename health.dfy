/** The periodic health sweep of internal/health/health_monitor.go: one pass
    over the node map that inspects every node's container, tries a restart
    when the inspection fails, and writes the node's new status back. */
module Health {
  import opened Wrappers
  import opened Pods
  import opened Nodes
  import opened Scheduler
  import opened Recovery
  import opened Manager

  /** Whether the restart attempt for a node reaches the rescheduling path. */
  predicate Reschedules(probe: Probe, env: RestartEnv)
  {
    probe == Unreachable && env.clientOk && env.restartOk && env.recheck != Up(true)
  }

  /** One turn of the sweep for node `id`: the record is copied first, a
      failed inspection triggers one restart attempt, and then the copy,
      with only its status replaced, is written back over whatever the
      restart did to that node. */
  ghost function SweepStep(s: Store, id: string, probe: Probe, env: RestartEnv): (t: Store)
    ensures t.nodes.Keys == s.nodes.Keys && t.pods.Keys == s.pods.Keys
    ensures id in s.nodes ==> t.nodes[id] == s.nodes[id].(status := ObservedStatus(probe))
  {
    if id !in s.nodes then s
    else
      var node := s.nodes[id];
      var mid := if probe == Unreachable then RestartEffect(s, id, env) else s;
      Store(mid.nodes[id := node.(status := ObservedStatus(probe))], mid.pods)
  }

  /** The sweep over `order`, one turn per identifier. */
  ghost function SweepAll(s: Store, order: seq<string>, inspect: string -> Probe, restart: string -> RestartEnv): (t: Store)
    ensures t.nodes.Keys == s.nodes.Keys && t.pods.Keys == s.pods.Keys
  {
    if order == [] then s
    else
      var last := order[|order| - 1];
      SweepStep(SweepAll(s, order[..|order| - 1], inspect, restart), last, inspect(last), restart(last))
  }

  class HealthManager {
    const nodeManager: NodeManager

    constructor (nm: NodeManager)
      ensures nodeManager == nm
    {
      nodeManager := nm;
    }

    /** One turn of the sweep: the record is copied, the copy's status set
        from the inspection, a restart tried when the container could not be
        inspected, and the copy written back. */
    method SweepNode(id: string, probe: Probe, env: RestartEnv)
      requires nodeManager.Valid() && id in nodeManager.nodes
      modifies nodeManager
      ensures nodeManager.Valid()
      ensures nodeManager.State() == SweepStep(old(nodeManager.State()), id, probe, env)
      ensures nodeManager.totalCpus == old(nodeManager.totalCpus)
    {
      var node := nodeManager.nodes[id];
      match probe {
        case Unreachable =>
          node := node.(status := NodeStatus.Unhealthy);
          var _ := nodeManager.RestartNode(id, env);
        case Up(running) =>
          node := node.(status := if running then NodeStatus.Running else NodeStatus.Stopped);
      }
      RewriteKeepsOrdered(nodeManager.nodes, node);
      nodeManager.nodes := nodeManager.nodes[id := node];
    }

    /** One sweep. The container backend is an input: `clientOk` says whether
        a client could be created, `inspect` what inspecting each container
        reports and `restart` how a restart attempt for it goes. Without a
        client nothing changes; otherwise every node is visited once, in an
        order the map chooses, which `order` records. */
    method CheckNodesHealth(clientOk: bool, inspect: string -> Probe, restart: string -> RestartEnv)
      returns (ghost order: seq<string>)
      requires nodeManager.Valid()
      modifies nodeManager
      ensures nodeManager.Valid()
      ensures !clientOk ==> order == [] && nodeManager.State() == old(nodeManager.State())
      ensures clientOk ==> Distinct(order) && forall k :: k in order <==> k in old(nodeManager.nodes)
      ensures nodeManager.State() == SweepAll(old(nodeManager.State()), order, inspect, restart)
      ensures nodeManager.totalCpus == old(nodeManager.totalCpus)
    {
      order := [];
      if !clientOk {
        return;
      }
      ghost var start := nodeManager.State();
      var rest := nodeManager.nodes.Keys;
      while rest != {}
        invariant nodeManager.Valid()
        invariant nodeManager.nodes.Keys == start.nodes.Keys
        invariant rest <= start.nodes.Keys
        invariant Distinct(order)
        invariant forall k :: k in order <==> k in start.nodes && k !in rest
        invariant nodeManager.State() == SweepAll(start, order, inspect, restart)
        invariant nodeManager.totalCpus == old(nodeManager.totalCpus)
        decreases rest
      {
        var id :| id in rest;
        ghost var cur := nodeManager.State();
        SweepNode(id, inspect(id), restart(id));
        assert nodeManager.State() == SweepStep(cur, id, inspect(id), restart(id));
        assert (order + [id])[..|order|] == order;
        order := order + [id];
        rest := rest - {id};
      }
    }
  }

  /** After the sweep every visited node carries the status its inspection
      reported, and every other node keeps its own. */
  lemma {:induction false} SweepSetsStatus(s: Store, order: seq<string>, inspect: string -> Probe, restart: string -> RestartEnv)
    requires Distinct(order)
    ensures forall k :: k in order && k in s.nodes ==>
      SweepAll(s, order, inspect, restart).nodes[k].status == ObservedStatus(inspect(k))
    ensures forall k :: k in s.nodes && k !in order ==>
      SweepAll(s, order, inspect, restart).nodes[k].status == s.nodes[k].status
  {
    if order != [] {
      var pre, last := order[..|order| - 1], order[|order| - 1];
      assert Distinct(pre);
      assert forall k :: k in order <==> k in pre || k == last;
      assert last !in pre;
      SweepSetsStatus(s, pre, inspect, restart);
    }
  }

  /** A sweep that never reaches the rescheduling path only rewrites
      statuses: pods, resident lists and used CPUs stay as they were. */
  lemma {:induction false} QuietSweepOnlyTouchesStatus(s: Store, order: seq<string>, inspect: string -> Probe, restart: string -> RestartEnv)
    requires forall k :: k in order ==> !Reschedules(inspect(k), restart(k))
    ensures var t := SweepAll(s, order, inspect, restart);
      && t.pods == s.pods
      && forall k :: k in s.nodes ==> t.nodes[k] == s.nodes[k].(status := t.nodes[k].status)
  {
    if order != [] {
      var pre, last := order[..|order| - 1], order[|order| - 1];
      assert forall k :: k in pre ==> k in order;
      QuietSweepOnlyTouchesStatus(s, pre, inspect, restart);
    }
  }

  /** A quiet sweep keeps the store consistent. */
  lemma QuietSweepKeepsConsistent(s: Store, order: seq<string>, inspect: string -> Probe, restart: string -> RestartEnv)
    requires Consistent(s)
    requires forall k :: k in order ==> !Reschedules(inspect(k), restart(k))
    ensures Consistent(SweepAll(s, order, inspect, restart))
  {
    QuietSweepOnlyTouchesStatus(s, order, inspect, restart);
  }

  /** No node is left over capacity by a sweep. */
  lemma {:induction false} SweepKeepsCapacity(s: Store, order: seq<string>, inspect: string -> Probe, restart: string -> RestartEnv)
    requires Capacity(s.nodes)
    ensures Capacity(SweepAll(s, order, inspect, restart).nodes)
  {
    if order != [] {
      var pre, last := order[..|order| - 1], order[|order| - 1];
      SweepKeepsCapacity(s, pre, inspect, restart);
      var u := SweepAll(s, pre, inspect, restart);
      if last in u.nodes && inspect(last) == Unreachable {
        if last in u.nodes && restart(last).clientOk && restart(last).restartOk && restart(last).recheck != Up(true) {
          RescheduleKeepsCapacity(u, u.nodes[last].pods);
        }
      }
    }
  }

  /** The store of the example below: pod p1 fills node n1, node n2 is empty. */
  const StaleStart := Store(map["n1" := Node("n1", 1, 1, NodeStatus.Running, ["p1"], 0),
                                "n2" := Node("n2", 2, 0, NodeStatus.Running, [], 1)],
                            map["p1" := Pod("p1", 1, "n1", PodStatus.Running)])

  /** The same store after a failed restart of n1 and the sweep's write-back:
      p1 runs on n2 and is listed on both nodes. */
  const StaleEnd := Store(map["n1" := Node("n1", 1, 1, NodeStatus.Unhealthy, ["p1"], 0),
                              "n2" := Node("n2", 2, 1, NodeStatus.Running, ["p1"], 1)],
                          map["p1" := Pod("p1", 1, "n2", PodStatus.Running)])

  /** The example starts consistent. */
  lemma StaleStartConsistent()
    ensures Consistent(StaleStart)
  {
    assert ["p1"][..0] == [];
    assert ResidentCpus(["p1"], StaleStart.pods) == 1;
    assert PodsKeyed(StaleStart.pods);
  }

  /** In the example, first-fit places a cleared p1 on n2, the only node with room left. */
  lemma StaleChoice()
    ensures FirstFitChoice(StaleStart.nodes, 1) == Some("n2")
  {
    var s := StaleStart;
    assert Eligible(s.nodes["n2"], 1) && !Eligible(s.nodes["n1"], 1);
    assert AnyEligible(s.nodes, 1);
    var c := FirstFitChoice(s.nodes, 1);
    assert c.Some? && c.value in s.nodes && Eligible(s.nodes[c.value], 1);
    assert c.value == "n1" || c.value == "n2";
  }

  /** A failed restart of n1, as `RestartNode` performs it when called on its
      own (internal/node/node_handler.go:118, which holds no lock), moves p1 to
      n2 but never takes it off n1's list: the store is inconsistent right
      after the restart, before any sweep writes anything back. */
  lemma StaleRestartMoves()
    ensures RestartEffect(StaleStart, "n1", RestartEnv(true, true, Unreachable))
      == Store(StaleEnd.nodes["n1" := StaleStart.nodes["n1"]], StaleEnd.pods)
    ensures !Consistent(RestartEffect(StaleStart, "n1", RestartEnv(true, true, Unreachable)))
  {
    var s := StaleStart;
    var want := Store(StaleEnd.nodes["n1" := s.nodes["n1"]], StaleEnd.pods);
    assert RescheduleStep(s, "p1") == want by {
      StaleChoice();
      var p := Detach(s.pods["p1"]);
      var m := Store(Place(s.nodes, "n2", p), s.pods["p1" := Attach(p, "n2")]);
      assert RescheduleStep(s, "p1") == m;
      assert m.pods == want.pods;
      assert m.nodes == want.nodes by {
        assert [] + ["p1"] == ["p1"];
        assert m.nodes.Keys == want.nodes.Keys;
        assert m.nodes["n1"] == want.nodes["n1"];
        assert m.nodes["n2"] == want.nodes["n2"];
      }
    }
    assert ["p1"][..0] == [];
    assert RescheduleAll(s, ["p1"]) == want;
    assert !Consistent(want) by {
      assert want.nodes["n1"].pods[0] == "p1" && want.pods["p1"].nodeId != "n1";
    }
  }

  /** The first turn of the example's sweep, on n1, already reaches `StaleEnd`. */
  lemma StaleFirstTurn(inspect: string -> Probe, restart: string -> RestartEnv)
    requires inspect("n1") == Unreachable
    requires restart("n1") == RestartEnv(true, true, Unreachable)
    ensures SweepAll(StaleStart, ["n1"], inspect, restart) == StaleEnd
  {
    StaleRestartMoves();
    assert ["n1"][..0] == [];
    assert SweepStep(StaleStart, "n1", inspect("n1"), restart("n1")) == StaleEnd;
  }

  /** The second turn, on n2, changes nothing more. */
  lemma StaleSweepEnds(inspect: string -> Probe, restart: string -> RestartEnv)
    requires inspect("n1") == Unreachable && inspect("n2") == Up(true)
    requires restart("n1") == RestartEnv(true, true, Unreachable)
    ensures SweepAll(StaleStart, ["n1", "n2"], inspect, restart) == StaleEnd
  {
    StaleFirstTurn(inspect, restart);
    assert ["n1", "n2"][..1] == ["n1"];
    assert SweepStep(StaleEnd, "n2", inspect("n2"), restart("n2")) == StaleEnd;
  }

  /** The sweep over the example under this model's one-step semantics: n1's
      failed restart moves p1 to n2 and leaves it on n1's list
      (`StaleRestartMoves`); the write-back of n1's copy only replaces its
      status, so p1 stays listed and counted on both nodes. The source never
      reaches this state through the sweep: the sweep holds the store's mutex
      and the restart's rescheduling locks it again, so it blocks first. */
  lemma SweepLeavesStaleResident(inspect: string -> Probe, restart: string -> RestartEnv)
    requires inspect("n1") == Unreachable && inspect("n2") == Up(true)
    requires restart("n1") == RestartEnv(true, true, Unreachable)
    ensures
      var t := SweepAll(StaleStart, ["n1", "n2"], inspect, restart);
      && Consistent(StaleStart)
      && t.pods["p1"].nodeId == "n2"
      && t.nodes["n1"].pods == ["p1"] && t.nodes["n1"].usedCpus == 1
      && t.nodes["n2"].pods == ["p1"] && t.nodes["n2"].usedCpus == 1
      && t.nodes["n1"].status == NodeStatus.Unhealthy
      && !Consistent(t)
  {
    StaleStartConsistent();
    StaleSweepEnds(inspect, restart);
    assert !Consistent(StaleEnd) by {
      assert StaleEnd.nodes["n1"].pods[0] == "p1" && StaleEnd.pods["p1"].nodeId != "n1";
    }
  }
}
