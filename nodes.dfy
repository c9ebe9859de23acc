/** The node record of internal/node/node.go and the facts about node maps
    that every other part of the model relies on. */
module Nodes {

  datatype NodeStatus = Pending | Running | Stopped | Unhealthy

  /** A worker node. `createdAt` stands for the creation timestamp; `pods`
      is the ordered list of resident pod identifiers. */
  datatype Node = Node(
    id: string,
    cpus: int,
    usedCpus: int,
    status: NodeStatus,
    pods: seq<string>,
    createdAt: int)

  /** What inspecting a node's container reports: an error, or whether it runs. */
  datatype Probe = Unreachable | Up(running: bool)

  /** The status rule shared by the health sweep and the node listing. */
  function ObservedStatus(p: Probe): (s: NodeStatus)
    ensures s == Unhealthy <==> p.Unreachable?
    ensures s == Running <==> p == Up(true)
    ensures s == Stopped <==> p == Up(false)
    ensures s != Pending
  {
    match p
    case Unreachable => Unhealthy
    case Up(running) => if running then Running else Stopped
  }

  /** A node can take a pod when its free capacity covers the request. */
  predicate Eligible(n: Node, cpus: int)
  {
    n.cpus - n.usedCpus >= cpus
  }

  /** Every record is stored under its own, non-empty identifier. */
  ghost predicate WellKeyed(nodes: map<string, Node>)
  {
    forall k :: k in nodes ==> k != "" && nodes[k].id == k
  }

  /** No two nodes share a creation timestamp, so creation order is total. */
  ghost predicate DistinctCreation(nodes: map<string, Node>)
  {
    forall a, b :: a in nodes && b in nodes && a != b ==> nodes[a].createdAt != nodes[b].createdAt
  }

  ghost predicate Ordered(nodes: map<string, Node>)
  {
    WellKeyed(nodes) && DistinctCreation(nodes)
  }

  /** No node has more CPUs in use than it owns. */
  ghost predicate Capacity(nodes: map<string, Node>)
  {
    forall k :: k in nodes ==> nodes[k].usedCpus <= nodes[k].cpus
  }

  /** The capacity of all nodes together. */
  ghost function SumCpus(nodes: map<string, Node>): int
    decreases |nodes|
  {
    if nodes == map[] then 0
    else
      var k :| k in nodes;
      assert (nodes - {k}).Keys == nodes.Keys - {k};
      nodes[k].cpus + SumCpus(nodes - {k})
  }

  /** Any one node can be split off the sum, whichever the definition picks. */
  lemma {:induction false} SumCpusRemove(nodes: map<string, Node>, k: string)
    requires k in nodes
    ensures SumCpus(nodes) == nodes[k].cpus + SumCpus(nodes - {k})
    decreases |nodes|
  {
    var c :| c in nodes && SumCpus(nodes) == nodes[c].cpus + SumCpus(nodes - {c});
    if c != k {
      var rest := nodes - {c} - {k};
      assert (nodes - {c}).Keys == nodes.Keys - {c};
      assert (nodes - {k}).Keys == nodes.Keys - {k};
      SumCpusRemove(nodes - {c}, k);
      assert (nodes - {c}) - {k} == rest;
      SumCpusRemove(nodes - {k}, c);
      assert (nodes - {k}) - {c} == rest;
    }
  }

  /** Registering a node under a new identifier adds exactly its CPUs. */
  lemma SumCpusInsertFresh(nodes: map<string, Node>, n: Node)
    requires n.id !in nodes
    ensures SumCpus(nodes[n.id := n]) == SumCpus(nodes) + n.cpus
  {
    SumCpusRemove(nodes[n.id := n], n.id);
    assert nodes[n.id := n] - {n.id} == nodes;
  }

  /** Overwriting a record replaces its CPUs in the sum instead of adding to them. */
  lemma SumCpusOverwrite(nodes: map<string, Node>, n: Node)
    requires n.id in nodes
    ensures SumCpus(nodes[n.id := n]) == SumCpus(nodes) - nodes[n.id].cpus + n.cpus
  {
    SumCpusRemove(nodes[n.id := n], n.id);
    SumCpusRemove(nodes, n.id);
    assert nodes[n.id := n] - {n.id} == nodes - {n.id};
  }

  /** The sum depends only on which identifiers are present and their CPUs. */
  lemma {:induction false} SumCpusSameCapacity(a: map<string, Node>, b: map<string, Node>)
    requires a.Keys == b.Keys
    requires forall k :: k in a ==> a[k].cpus == b[k].cpus
    ensures SumCpus(a) == SumCpus(b)
    decreases |a|
  {
    if a != map[] {
      var k :| k in a;
      SumCpusRemove(a, k);
      SumCpusRemove(b, k);
      assert (a - {k}).Keys == a.Keys - {k};
      SumCpusSameCapacity(a - {k}, b - {k});
    }
  }

  /** Rewriting a record without touching its identifier or creation time keeps the order. */
  lemma RewriteKeepsOrdered(nodes: map<string, Node>, n: Node)
    requires Ordered(nodes) && n.id in nodes && n.createdAt == nodes[n.id].createdAt
    ensures Ordered(nodes[n.id := n])
  {
  }
}
