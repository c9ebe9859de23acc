/** The placement policies of internal/node/pod_scheduler.go. Each policy is
    handed the store's node map; on success it writes the chosen node back
    into that map, so here it returns the updated map alongside its answer. */
module Scheduler {
  import opened Wrappers
  import opened Pods
  import opened Nodes

  /** The sentinel best-fit starts from: the largest Go `int` on a 64-bit platform. */
  const MaxInt: int := 0x7FFF_FFFF_FFFF_FFFF

  datatype Policy = FirstFit | BestFit | WorstFit

  /** CPUs a node would have left after taking the pod. */
  function Leftover(n: Node, cpus: int): int
  {
    n.cpus - n.usedCpus - cpus
  }

  /** Best-fit only ever selects a node whose leftover is below its sentinel. */
  predicate BestFitCandidate(n: Node, cpus: int)
  {
    Eligible(n, cpus) && Leftover(n, cpus) < MaxInt
  }

  ghost predicate AnyEligible(nodes: map<string, Node>, cpus: int)
  {
    exists k :: k in nodes && Eligible(nodes[k], cpus)
  }

  ghost predicate AnyBestFitCandidate(nodes: map<string, Node>, cpus: int)
  {
    exists k :: k in nodes && BestFitCandidate(nodes[k], cpus)
  }

  /** The first eligible node in creation order. */
  ghost predicate IsFirstFit(nodes: map<string, Node>, cpus: int, id: string)
  {
    && id in nodes
    && Eligible(nodes[id], cpus)
    && forall k :: k in nodes && nodes[k].createdAt < nodes[id].createdAt ==> !Eligible(nodes[k], cpus)
  }

  /** An eligible node with the least leftover that no earlier node matches. */
  ghost predicate IsBestFit(nodes: map<string, Node>, cpus: int, id: string)
  {
    && id in nodes
    && BestFitCandidate(nodes[id], cpus)
    && (forall k :: k in nodes && Eligible(nodes[k], cpus) ==>
          Leftover(nodes[id], cpus) <= Leftover(nodes[k], cpus))
    && (forall k :: k in nodes && Eligible(nodes[k], cpus) && nodes[k].createdAt < nodes[id].createdAt ==>
          Leftover(nodes[id], cpus) < Leftover(nodes[k], cpus))
  }

  /** An eligible node with the most leftover that no earlier node matches. */
  ghost predicate IsWorstFit(nodes: map<string, Node>, cpus: int, id: string)
  {
    && id in nodes
    && Eligible(nodes[id], cpus)
    && (forall k :: k in nodes && Eligible(nodes[k], cpus) ==>
          Leftover(nodes[k], cpus) <= Leftover(nodes[id], cpus))
    && (forall k :: k in nodes && Eligible(nodes[k], cpus) && nodes[k].createdAt < nodes[id].createdAt ==>
          Leftover(nodes[k], cpus) < Leftover(nodes[id], cpus))
  }

  ghost predicate Chosen(policy: Policy, nodes: map<string, Node>, cpus: int, id: string)
  {
    match policy
    case FirstFit => IsFirstFit(nodes, cpus, id)
    case BestFit => IsBestFit(nodes, cpus, id)
    case WorstFit => IsWorstFit(nodes, cpus, id)
  }

  /** Whether the policy can place the pod at all. */
  ghost predicate Feasible(policy: Policy, nodes: map<string, Node>, cpus: int)
  {
    if policy == BestFit then AnyBestFitCandidate(nodes, cpus) else AnyEligible(nodes, cpus)
  }

  /** The node map after `pod` is committed to node `id`: its identifier is
      appended to the resident list and its CPUs are counted as used. */
  function Place(nodes: map<string, Node>, id: string, pod: Pod): map<string, Node>
    requires id in nodes
  {
    nodes[id := nodes[id].(pods := nodes[id].pods + [pod.id], usedCpus := nodes[id].usedCpus + pod.cpus)]
  }

  /** What a policy call promises: the chosen node and the map with the pod
      placed on it, or NoCapacity and the map exactly as it was. */
  ghost predicate Scheduled(policy: Policy, nodes: map<string, Node>, pod: Pod,
                            r: Result<string>, nodes': map<string, Node>)
  {
    match r
    case Ok(id) => id in nodes && Chosen(policy, nodes, pod.cpus, id) && nodes' == Place(nodes, id, pod)
    case Err(e) => e == NoCapacity && !Feasible(policy, nodes, pod.cpus) && nodes' == nodes
  }

  /** Which policy an algorithm name selects: anything but the two named ones is first-fit. */
  function PolicyFor(algorithm: string): (p: Policy)
    ensures p == BestFit <==> algorithm == "best_fit"
    ensures p == WorstFit <==> algorithm == "worst_fit"
    ensures p == FirstFit <==> algorithm != "best_fit" && algorithm != "worst_fit"
  {
    if algorithm == "best_fit" then BestFit
    else if algorithm == "worst_fit" then WorstFit
    else FirstFit
  }

  /** Placing a pod on an eligible node keeps that node within its capacity
      and changes no other entry and no key. */
  lemma PlaceKeepsCapacity(nodes: map<string, Node>, id: string, pod: Pod)
    requires id in nodes && Eligible(nodes[id], pod.cpus) && Capacity(nodes)
    ensures Capacity(Place(nodes, id, pod))
    ensures Place(nodes, id, pod).Keys == nodes.Keys
    ensures forall k :: k in nodes && k != id ==> Place(nodes, id, pod)[k] == nodes[k]
  {
  }

  /** `list` is strictly increasing in creation time. */
  ghost predicate CreationSorted(list: seq<Node>)
  {
    forall i, j :: 0 <= i < j < |list| ==> list[i].createdAt < list[j].createdAt
  }

  /** One insertion step of the sort: `n` goes before the first record created after it. */
  method InsertByCreation(list: seq<Node>, n: Node) returns (list': seq<Node>)
    requires CreationSorted(list)
    requires forall i :: 0 <= i < |list| ==> list[i].createdAt != n.createdAt
    ensures CreationSorted(list')
    ensures forall x :: x in list' <==> x in list || x == n
  {
    var j := 0;
    while j < |list| && list[j].createdAt < n.createdAt
      invariant 0 <= j <= |list|
      invariant forall i :: 0 <= i < j ==> list[i].createdAt < n.createdAt
    {
      j := j + 1;
    }
    assert forall i :: j <= i < |list| ==> n.createdAt < list[i].createdAt by {
      forall i | j <= i < |list| ensures n.createdAt < list[i].createdAt {
        if i > j {
          assert list[j].createdAt < list[i].createdAt;
        }
      }
    }
    list' := list[..j] + [n] + list[j..];
    assert forall x :: x in list ==> x in list' by {
      forall x | x in list ensures x in list' {
        var i :| 0 <= i < |list| && list[i] == x;
        if i < j { assert list'[i] == x; } else { assert list'[i + 1] == x; }
      }
    }
    assert list'[j] == n;
  }

  /** Placing a pod changes no identifier and no creation time. */
  lemma PlaceKeepsOrdered(nodes: map<string, Node>, id: string, pod: Pod)
    requires id in nodes && Ordered(nodes)
    ensures Ordered(Place(nodes, id, pod))
  {
  }

  /** The node records in ascending creation order: the slice the policies
      build from the map and sort. */
  method SortByCreation(nodes: map<string, Node>) returns (list: seq<Node>)
    requires Ordered(nodes)
    ensures forall i :: 0 <= i < |list| ==> list[i].id in nodes && nodes[list[i].id] == list[i]
    ensures forall k :: k in nodes ==> nodes[k] in list
    ensures CreationSorted(list)
  {
    list := [];
    var rest := nodes.Keys;
    while rest != {}
      invariant rest <= nodes.Keys
      invariant forall i :: 0 <= i < |list| ==>
        list[i].id in nodes && list[i].id !in rest && nodes[list[i].id] == list[i]
      invariant forall k :: k in nodes && k !in rest ==> nodes[k] in list
      invariant CreationSorted(list)
      decreases rest
    {
      var k :| k in rest;
      var list' := InsertByCreation(list, nodes[k]);
      forall i | 0 <= i < |list'|
        ensures list'[i].id in nodes && list'[i].id !in rest - {k} && nodes[list'[i].id] == list'[i]
      {
        assert list'[i] in list';
        if list'[i] != nodes[k] {
          var j :| 0 <= j < |list| && list[j] == list'[i];
        }
      }
      list := list';
      rest := rest - {k};
    }
  }

  /** First-fit: the first node in creation order with enough free CPUs. */
  method SchedulePodFirstFit(pod: Pod, nodes: map<string, Node>) returns (r: Result<string>, nodes': map<string, Node>)
    requires Ordered(nodes)
    ensures Scheduled(FirstFit, nodes, pod, r, nodes')
  {
    var nodeList := SortByCreation(nodes);
    for i := 0 to |nodeList|
      invariant forall j :: 0 <= j < i ==> !Eligible(nodeList[j], pod.cpus)
    {
      var n := nodeList[i];
      var available := n.cpus - n.usedCpus;
      if available >= pod.cpus {
        var id := n.id;
        var updatedNode := nodes[id];
        updatedNode := updatedNode.(pods := updatedNode.pods + [pod.id], usedCpus := updatedNode.usedCpus + pod.cpus);
        nodes' := nodes[id := updatedNode];
        forall k | k in nodes && nodes[k].createdAt < nodes[id].createdAt
          ensures !Eligible(nodes[k], pod.cpus)
        {
          var j :| 0 <= j < |nodeList| && nodeList[j] == nodes[k];
          assert j < i;
        }
        return Ok(id), nodes';
      }
    }
    forall k | k in nodes ensures !Eligible(nodes[k], pod.cpus) {
      var j :| 0 <= j < |nodeList| && nodeList[j] == nodes[k];
    }
    return Err(NoCapacity), nodes;
  }

  /** Best-fit: the node left with the fewest free CPUs; the strict `<`
      keeps the earliest-created node among equals. */
  method SchedulePodBestFit(pod: Pod, nodes: map<string, Node>) returns (r: Result<string>, nodes': map<string, Node>)
    requires Ordered(nodes)
    ensures Scheduled(BestFit, nodes, pod, r, nodes')
  {
    var nodeList := SortByCreation(nodes);
    var selectedId := "";
    var minLeftover := MaxInt;
    ghost var sel := -1;
    for i := 0 to |nodeList|
      invariant -1 <= sel < i
      invariant sel == -1 ==> selectedId == "" && minLeftover == MaxInt
      invariant sel == -1 ==> forall j :: 0 <= j < i ==> !BestFitCandidate(nodeList[j], pod.cpus)
      invariant sel >= 0 ==> selectedId == nodeList[sel].id && selectedId != ""
      invariant sel >= 0 ==> BestFitCandidate(nodeList[sel], pod.cpus) && minLeftover == Leftover(nodeList[sel], pod.cpus)
      invariant forall j :: 0 <= j < i && Eligible(nodeList[j], pod.cpus) ==> minLeftover <= Leftover(nodeList[j], pod.cpus)
      invariant sel >= 0 ==> forall j :: 0 <= j < sel && Eligible(nodeList[j], pod.cpus) ==>
        minLeftover < Leftover(nodeList[j], pod.cpus)
    {
      var n := nodeList[i];
      var available := n.cpus - n.usedCpus;
      if available >= pod.cpus {
        var leftover := available - pod.cpus;
        if leftover < minLeftover {
          minLeftover := leftover;
          selectedId := n.id;
          sel := i;
        }
      }
    }
    if selectedId == "" {
      forall k | k in nodes ensures !BestFitCandidate(nodes[k], pod.cpus) {
        var j :| 0 <= j < |nodeList| && nodeList[j] == nodes[k];
      }
      return Err(NoCapacity), nodes;
    }
    var n := nodes[selectedId];
    n := n.(pods := n.pods + [pod.id], usedCpus := n.usedCpus + pod.cpus);
    nodes' := nodes[selectedId := n];
    forall k | k in nodes && Eligible(nodes[k], pod.cpus)
      ensures Leftover(nodes[selectedId], pod.cpus) <= Leftover(nodes[k], pod.cpus)
      ensures nodes[k].createdAt < nodes[selectedId].createdAt ==>
        Leftover(nodes[selectedId], pod.cpus) < Leftover(nodes[k], pod.cpus)
    {
      var j :| 0 <= j < |nodeList| && nodeList[j] == nodes[k];
      if nodes[k].createdAt < nodes[selectedId].createdAt {
        assert j < sel;
      }
    }
    return Ok(selectedId), nodes';
  }

  /** Worst-fit: the node left with the most free CPUs; the strict `>`
      from -1 keeps the earliest-created node among equals. */
  method SchedulePodWorstFit(pod: Pod, nodes: map<string, Node>) returns (r: Result<string>, nodes': map<string, Node>)
    requires Ordered(nodes)
    ensures Scheduled(WorstFit, nodes, pod, r, nodes')
  {
    var nodeList := SortByCreation(nodes);
    var selectedId := "";
    var maxLeftover := -1;
    ghost var sel := -1;
    for i := 0 to |nodeList|
      invariant -1 <= sel < i
      invariant sel == -1 ==> selectedId == "" && maxLeftover == -1
      invariant sel == -1 ==> forall j :: 0 <= j < i ==> !Eligible(nodeList[j], pod.cpus)
      invariant sel >= 0 ==> selectedId == nodeList[sel].id && selectedId != ""
      invariant sel >= 0 ==> Eligible(nodeList[sel], pod.cpus) && maxLeftover == Leftover(nodeList[sel], pod.cpus)
      invariant forall j :: 0 <= j < i && Eligible(nodeList[j], pod.cpus) ==> Leftover(nodeList[j], pod.cpus) <= maxLeftover
      invariant sel >= 0 ==> forall j :: 0 <= j < sel && Eligible(nodeList[j], pod.cpus) ==>
        Leftover(nodeList[j], pod.cpus) < maxLeftover
    {
      var n := nodeList[i];
      var available := n.cpus - n.usedCpus;
      if available >= pod.cpus {
        var leftover := available - pod.cpus;
        if leftover > maxLeftover {
          maxLeftover := leftover;
          selectedId := n.id;
          sel := i;
        }
      }
    }
    if selectedId == "" {
      forall k | k in nodes ensures !Eligible(nodes[k], pod.cpus) {
        var j :| 0 <= j < |nodeList| && nodeList[j] == nodes[k];
      }
      return Err(NoCapacity), nodes;
    }
    var n := nodes[selectedId];
    n := n.(pods := n.pods + [pod.id], usedCpus := n.usedCpus + pod.cpus);
    nodes' := nodes[selectedId := n];
    forall k | k in nodes && Eligible(nodes[k], pod.cpus)
      ensures Leftover(nodes[k], pod.cpus) <= Leftover(nodes[selectedId], pod.cpus)
      ensures nodes[k].createdAt < nodes[selectedId].createdAt ==>
        Leftover(nodes[k], pod.cpus) < Leftover(nodes[selectedId], pod.cpus)
    {
      var j :| 0 <= j < |nodeList| && nodeList[j] == nodes[k];
      if nodes[k].createdAt < nodes[selectedId].createdAt {
        assert j < sel;
      }
    }
    return Ok(selectedId), nodes';
  }

  /** Dispatch on the algorithm name. */
  method SchedulePod(pod: Pod, nodes: map<string, Node>, algorithm: string) returns (r: Result<string>, nodes': map<string, Node>)
    requires Ordered(nodes)
    ensures Scheduled(PolicyFor(algorithm), nodes, pod, r, nodes')
  {
    if algorithm == "best_fit" {
      r, nodes' := SchedulePodBestFit(pod, nodes);
    } else if algorithm == "worst_fit" {
      r, nodes' := SchedulePodWorstFit(pod, nodes);
    } else {
      r, nodes' := SchedulePodFirstFit(pod, nodes);
    }
  }

  /** `e` is eligible and created no later than any other eligible node in `keys`. */
  ghost predicate EarliestEligibleAmong(nodes: map<string, Node>, cpus: int, keys: set<string>, e: string)
    requires keys <= nodes.Keys
  {
    && e in keys
    && Eligible(nodes[e], cpus)
    && forall k :: k in keys && Eligible(nodes[k], cpus) ==> nodes[e].createdAt <= nodes[k].createdAt
  }

  /** Among eligible nodes there is always one created first. */
  lemma {:induction false} EarliestEligibleExists(nodes: map<string, Node>, cpus: int, keys: set<string>)
    requires keys <= nodes.Keys
    requires exists k :: k in keys && Eligible(nodes[k], cpus)
    ensures exists e :: EarliestEligibleAmong(nodes, cpus, keys, e)
    decreases keys
  {
    var c :| c in keys;
    var rest := keys - {c};
    if exists k :: k in rest && Eligible(nodes[k], cpus) {
      EarliestEligibleExists(nodes, cpus, rest);
      var e :| EarliestEligibleAmong(nodes, cpus, rest, e);
      if Eligible(nodes[c], cpus) && nodes[c].createdAt < nodes[e].createdAt {
        assert EarliestEligibleAmong(nodes, cpus, keys, c);
      } else {
        assert EarliestEligibleAmong(nodes, cpus, keys, e);
      }
    } else {
      assert EarliestEligibleAmong(nodes, cpus, keys, c);
    }
  }

  /** First-fit as a function of the node map, for the rescheduling specification. */
  ghost function FirstFitChoice(nodes: map<string, Node>, cpus: int): (r: Option<string>)
    ensures r.Some? ==> IsFirstFit(nodes, cpus, r.value)
    ensures r.None? ==> !AnyEligible(nodes, cpus)
  {
    if AnyEligible(nodes, cpus) then
      EarliestEligibleExists(nodes, cpus, nodes.Keys);
      var e :| EarliestEligibleAmong(nodes, cpus, nodes.Keys, e);
      Some(e)
    else
      None
  }

  /** With distinct creation times every policy's choice is unique. */
  lemma ChoiceUnique(policy: Policy, nodes: map<string, Node>, cpus: int, a: string, b: string)
    requires DistinctCreation(nodes)
    requires Chosen(policy, nodes, cpus, a) && Chosen(policy, nodes, cpus, b)
    ensures a == b
  {
  }

  /** The first-fit policy method and its functional specification agree. */
  lemma FirstFitMatchesChoice(nodes: map<string, Node>, pod: Pod, r: Result<string>, nodes': map<string, Node>)
    requires DistinctCreation(nodes)
    requires Scheduled(FirstFit, nodes, pod, r, nodes')
    ensures r.Ok? <==> FirstFitChoice(nodes, pod.cpus).Some?
    ensures r.Ok? ==> FirstFitChoice(nodes, pod.cpus) == Some(r.value)
  {
    if r.Ok? {
      ChoiceUnique(FirstFit, nodes, pod.cpus, r.value, FirstFitChoice(nodes, pod.cpus).value);
    }
  }
}
