# cluster-sim: a verified model of the cluster state and its schedulers

cluster-sim simulates a Kubernetes-like cluster. Each node is a Docker container with a number
of CPUs. Pods ask for CPUs and are placed on nodes by one of three policies: first-fit,
best-fit or worst-fit. A `NodeManager` keeps two maps, nodes by identifier and pods by
identifier, and a running total of registered CPUs. When a node is deleted, or fails to come
back after a restart, its pods are cleared and placed again with first-fit. A health monitor
periodically inspects every node's container and records its status.

This project models that in-memory state and the logic that runs over it:

- `pods.dfy` (module `Pods`): the pod record and `CreatePod`.
- `nodes.dfy` (module `Nodes`): the node record, the rule that maps an inspection result to a
  status, eligibility, and the invariants over the node map (non-empty identifiers matching
  their keys, distinct creation times, capacity, the CPU sum).
- `scheduler.dfy` (module `Scheduler`): the three placement policies as loops over the nodes
  sorted by creation time, and the dispatcher. Each is proved against a functional statement
  of its choice (`IsFirstFit`, `IsBestFit`, `IsWorstFit`) and of the single node it changes
  (`Place`). `FirstFitChoice` is a function-level reference for the first-fit choice.
- `recovery.dfy` (module `Recovery`): functional specifications of rescheduling
  (`RescheduleStep`, `RescheduleAll`) and of restarting a node (`RestartEffect`). It also
  defines the cross-reference invariant `Consistent`. Every assigned pod is on its node's
  resident list, every resident names its node, no node lists a pod twice, and a node's used
  CPUs equal the CPUs of its residents. The lemmas show which operations keep this invariant
  and which do not.
- `manager.dfy` (module `Manager`): class `NodeManager` with its maps and total as fields. The
  operations of `node_manager.go`, the state transitions inside the HTTP handlers and
  `reschedulePods` are its methods. Each method is proved to produce exactly the state that
  the corresponding specification function describes.
- `health.dfy` (module `Health`): class `HealthManager` and one health sweep, proved against
  `SweepStep`/`SweepAll`.

The container backend, the clock and the uuid generator are inputs. A backend call is a
`Result`/`Outcome` or a `Probe` parameter, creation time is an `int`, the uuid is a string.
Go map iteration order is a nondeterministic choice (`:|`), and the order a loop actually
took is recorded in a ghost out-parameter. The source sorts nodes with an unstable sort, so the
model requires distinct creation times (`Ordered`); under that assumption every policy's
choice is unique (`ChoiceUnique`).

Three behaviours of the source are proved as they are, not corrected:

- A restart whose post-restart check fails reschedules the node's pods while the node is still
  registered. First-fit can put a pod straight back on the same node, which then lists it twice
  and counts its CPUs twice (`RestartFailureDuplicatesResident`).
- The same path never removes a moved pod from its old node's list. A pod that first-fit moves
  to another node stays listed, and counted, on the old one, and the store is inconsistent
  right after the restart (`StaleRestartMoves`). The path is reachable through
  `RestartNodeHandler` (internal/node/node_handler.go:118), which calls `RestartNode` without
  holding the lock.
- `AddNode` with an identifier already present replaces the record but still adds its CPUs to
  the total, so the total is off by the replaced record's CPUs (the last ensures of `AddNode`).

The health sweep calls `RestartNode` while it holds the store's mutex, and the rescheduling on
the failure path locks that mutex again, so in the source a sweep that reaches it blocks. The
model runs each operation as one atomic step, so there the sweep completes. `StaleSweepEnds` and
`SweepLeavesStaleResident` describe that completion, which the source never reaches.

Deleting a node, by contrast, removes it before rescheduling, and that path is proved to keep
the invariant (`DeleteThenRescheduleConsistent`).

## Model

| member | source | states |
|---|---|---|
| Pods.CreatePod | internal/pod/pod.go:16-23 | the new pod is Pending and unassigned, keeps the requested CPUs, and its id is "pod_" followed by the uuid |
| Pods.CreatePodIdDeterminesUuid | internal/pod/pod.go:17 | two created pods get the same id exactly when they were given the same uuid |
| Nodes.ObservedStatus | internal/health/health_monitor.go:47-62 | an inspection error gives Unhealthy, a running container Running and a stopped one Stopped, never Pending; each direction of each case holds |
| Nodes.SumCpusRemove | internal/node/node_handler.go:149-150 | removing one node from the map takes exactly its CPUs off the sum, whichever node the sum's definition picks first |
| Nodes.SumCpusInsertFresh | internal/node/node_manager.go:33-34 | adding a node under a new id adds exactly its CPUs to the sum |
| Nodes.SumCpusOverwrite | internal/node/node_manager.go:33-34 | overwriting a node changes the sum by the difference of the two CPU counts, not by the new count |
| Nodes.SumCpusSameCapacity | internal/node/pod_scheduler.go:133-171 | the sum depends only on the key set and each node's CPUs, so rescheduling (which changes only used CPUs and resident lists) keeps it |
| Nodes.RewriteKeepsOrdered | internal/health/health_monitor.go:63 | writing back a record with the same id and creation time keeps ids and creation times well formed |
| Scheduler.PolicyFor | internal/node/pod_scheduler.go:104-115 | best-fit exactly for "best_fit", worst-fit exactly for "worst_fit", first-fit for every other name including "" |
| Scheduler.PlaceKeepsCapacity | internal/node/pod_scheduler.go:38-41 | placing a pod on an eligible node keeps every node within its CPUs, keeps the key set and leaves every other node unchanged |
| Scheduler.PlaceKeepsOrdered | internal/node/pod_scheduler.go:38-41 | placing a pod keeps ids and creation times well formed |
| Scheduler.InsertByCreation | internal/node/pod_scheduler.go:20-22 | inserting a node into a creation-sorted list keeps it sorted and adds exactly that node |
| Scheduler.SortByCreation | internal/node/pod_scheduler.go:14-22 | the list holds exactly the map's records, in strictly ascending creation order |
| Scheduler.SchedulePodFirstFit | internal/node/pod_scheduler.go:45-71 | on success the chosen node is eligible and no earlier-created node is, only that node changes (pod id appended, CPUs added); with no eligible node it reports NoCapacity and the map is unchanged |
| Scheduler.SchedulePodBestFit | internal/node/pod_scheduler.go:13-43 | on success the chosen node has the least leftover among eligible nodes, and no earlier-created node has as little; it fails only when no eligible node's leftover is below the MaxInt64 sentinel; only the chosen node changes |
| Scheduler.SchedulePodWorstFit | internal/node/pod_scheduler.go:73-103 | on success the chosen node has the greatest leftover among eligible nodes, and no earlier-created node has as much; it fails only when no node is eligible; only the chosen node changes |
| Scheduler.SchedulePod | internal/node/pod_scheduler.go:104-115 | the outcome is exactly that of the policy `PolicyFor` selects |
| Scheduler.EarliestEligibleExists | internal/node/pod_scheduler.go:53-68 | when some node is eligible there is an earliest-created eligible one |
| Scheduler.FirstFitChoice | internal/node/pod_scheduler.go:58-70 | the reference choice is a first-fit node when there is one, and none exactly when no node is eligible |
| Scheduler.ChoiceUnique | internal/node/pod_scheduler.go:20-34 | with distinct creation times each policy admits at most one choice |
| Scheduler.FirstFitMatchesChoice | internal/node/pod_scheduler.go:45-71 | the first-fit method succeeds exactly when the reference choice exists, and picks that node |
| Recovery.ResidentCpusFrame | internal/node/pod_scheduler.go:140-151 | the CPUs of a resident list depend only on those pods' presence and CPUs, not on their assignment or status |
| Recovery.ResidentCpusAppend | internal/node/pod_scheduler.go:39-40 | appending a resident adds its CPUs |
| Recovery.RescheduleStep | internal/node/pod_scheduler.go:133-171 | one rescheduling turn keeps node ids, CPUs, statuses and creation times and only grows resident lists |
| Recovery.ScheduleIsStep | internal/node/pod_scheduler.go:140-151 | clearing a pod and placing it with the first-fit method yields exactly one rescheduling step |
| Recovery.RescheduleAll | internal/node/pod_scheduler.go:133-171 | the whole loop keeps the same frame as one turn |
| Recovery.DeleteKeepsLinked | internal/node/node_handler.go:149 | deleting a node keeps the invariant except for pods that name the deleted node |
| Recovery.DanglingIsUnlisted | internal/node/node_handler.go:149 | after the delete, a pod naming the deleted node is on no remaining list |
| Recovery.DetachKeepsLinked | internal/node/pod_scheduler.go:140-143 | clearing an unlisted pod's assignment keeps the invariant |
| Recovery.CommitKeepsLinked | internal/node/node_handler.go:95-105 | placing an unlisted pod on an eligible node and recording it there keeps the invariant and capacity |
| Recovery.StepKeepsLinked | internal/node/pod_scheduler.go:133-171 | one turn on an unlisted pod keeps the invariant and capacity, assigns the pod to nothing or to an existing node, and touches no other pod |
| Recovery.RescheduleDanglingKeepsLinked | internal/node/pod_scheduler.go:122-171 | rescheduling the pods of a node that is gone keeps the invariant, and none of them still names it |
| Recovery.DeleteThenRescheduleConsistent | internal/node/node_handler.go:149-154 | delete followed by reschedule turns a consistent, within-capacity store into one again, with no pod naming the deleted node |
| Recovery.RescheduleKeepsCapacity | internal/node/pod_scheduler.go:133-171 | no node exceeds its CPUs after rescheduling, and used CPUs stay non-negative when every pod asks for a non-negative count |
| Recovery.StepSettles | internal/node/pod_scheduler.go:140-151 | a turn leaves its pod Pending and unassigned or Running on a node that lists it, and no other pod changes |
| Recovery.SettledPersists | internal/node/pod_scheduler.go:133-171 | later turns keep an earlier pod settled |
| Recovery.RescheduleOutcome | internal/node/pod_scheduler.go:133-171 | every listed pod that exists ends Pending and unassigned or Running on a node that lists it; unlisted pods are untouched |
| Recovery.RestartEffect | internal/node/node_manager.go:60-92 | a restart keeps the same frame as rescheduling |
| Recovery.RestartFailureDuplicatesResident | internal/node/node_manager.go:83-89 | a consistent one-node store whose restart check fails ends with the pod listed twice, the CPUs counted twice, and the store inconsistent |
| Manager.NodeManager.constructor | internal/node/node_manager.go:21-27 | empty maps, zero total, every invariant holds |
| Manager.NodeManager.AddNode | internal/node/node_manager.go:30-35 | stores the record under its id and adds its CPUs to the total; the total stays the sum for a new id and is off by the old record's CPUs for an existing one |
| Manager.NodeManager.GetNodes | internal/node/node_manager.go:38-42 | returns the node map and changes nothing |
| Manager.NodeManager.AffectedPods | internal/node/pod_scheduler.go:119-130 | the failed node's own list when it is registered, otherwise exactly the pods naming it, each once |
| Manager.NodeManager.RescheduleOne | internal/node/pod_scheduler.go:134-170 | one loop turn produces exactly `RescheduleStep` |
| Manager.NodeManager.ReschedulePods | internal/node/pod_scheduler.go:117-172 | moves the affected pods, produces exactly `RescheduleAll` over them, and keeps the total and the sum |
| Manager.NodeManager.RestartNode | internal/node/node_manager.go:60-92 | unknown id: NodeNotFound, nothing changes; backend failure: error, nothing changes; failed check: RestartFailed, the node's list is rescheduled and the node stays; success: nothing changes; capacity is kept on every path |
| Manager.NodeManager.AddNodeHandler | internal/node/node_handler.go:25-38 | on backend failure nothing changes; otherwise a Running node with the requested CPUs, no pods, nothing used and the given time is registered, keeping the sum, consistency and capacity for a new id |
| Manager.NodeManager.AddPodHandler | internal/node/node_handler.go:87-106 | on failure no pod is recorded, the nodes are unchanged and no node was feasible; on success the pod is Running on the policy's choice, which lists it; capacity is always kept, used CPUs stay non-negative for a non-negative request, and consistency is kept when the pod id is new |
| Manager.NodeManager.DeleteNodeHandler | internal/node/node_handler.go:136-155 | backend failure or unknown id change nothing; otherwise the node is gone, its CPUs leave the total, its pods are rescheduled and none names it, the sum, consistency and capacity are kept; capacity is kept even without consistency |
| Manager.NodeManager.ListNodesHandler | internal/node/node_handler.go:47-74 | the listing holds every node once, with the status its probe reports, and the stored records are not changed |
| Health.SweepStep | internal/health/health_monitor.go:46-63 | one turn keeps both key sets and writes the node back as its copy from the start of the turn, with only the status replaced |
| Health.SweepAll | internal/health/health_monitor.go:46-65 | the sweep adds and removes no node or pod |
| Health.HealthManager.constructor | internal/health/health_monitor.go:19-21 | the monitor refers to the given store |
| Health.HealthManager.SweepNode | internal/health/health_monitor.go:47-63 | one loop turn produces exactly `SweepStep` and keeps the total |
| Health.HealthManager.CheckNodesHealth | internal/health/health_monitor.go:34-66 | without a client nothing changes; otherwise every node is visited exactly once and the result is exactly `SweepAll` in that order, with the total unchanged |
| Health.SweepSetsStatus | internal/health/health_monitor.go:47-63 | after the sweep every visited node has the status its inspection reported, Unhealthy even when its restart succeeded, and unvisited nodes keep theirs |
| Health.QuietSweepOnlyTouchesStatus | internal/health/health_monitor.go:46-63 | a sweep in which no restart reaches rescheduling changes only node statuses |
| Health.QuietSweepKeepsConsistent | internal/health/health_monitor.go:46-63 | such a sweep keeps the store consistent |
| Health.SweepKeepsCapacity | internal/health/health_monitor.go:46-63 | no node exceeds its CPUs after a sweep |
| Health.StaleRestartMoves | internal/node/node_manager.go:83-89 | in the two-node example a failed restart, reached through `RestartNodeHandler` (internal/node/node_handler.go:118), moves the pod to the other node while the old node still lists it and counts its CPUs, so the store becomes inconsistent |
| Health.StaleSweepEnds | internal/health/health_monitor.go:46-63 | under the model's one-step semantics, the example's sweep over both nodes ends in the stated store (in the source this sweep blocks on the mutex) |
| Health.SweepLeavesStaleResident | internal/health/health_monitor.go:46-63 | under the model's one-step semantics, a sweep whose restart moves a pod leaves it on both nodes' lists, counted on both, and the store inconsistent; the write-back changes only the status, so the stale listing comes from the restart |

## Left out

- Concurrency: `sync.Mutex`, the polling goroutine and every sleep. Each operation is one atomic step. In particular the sweep holds the mutex when a failed restart calls `reschedulePods`, which locks it again (internal/health/health_monitor.go:37-52, internal/node/pod_scheduler.go:118), so the program blocks there. The model instead runs the reschedule to completion.
- `RestartNode` reads the node map without the lock; this is not modelled either.
- The Docker wrappers in internal/node/node.go (`CreateNodeContainer`, `DeleteNodeContainer`, `RestartNodeContainer`) and `checkNodeHealth` are inputs, not models. Each is a success/failure value or a `Probe`. The container removal on the restart failure path is ignored by the source and is not modelled.
- `ShutdownNodes`, `ShutdownHandler`, the CLI in cmd/, api/server.go and main.go: process control and I/O, outside the state this model covers.
- `RestartNodeHandler` only forwards to `RestartNode` and turns its error into an HTTP reply, so `RestartNode` stands for it.
- JSON binding, HTTP status codes and logging. Request-decoding failures in the handlers happen before any state changes and are not modelled.
- uuid generation and `time.Now` are parameters. Creation times are integers and must be distinct (`Ordered`), because the source's unstable sort leaves ties unspecified.
- Node and pod statuses are enumerations rather than free strings. Pod status `Failed` is declared but never assigned by the modelled code.
- Integer width: CPU counts and sums are unbounded integers. The 64-bit wrap-around of `int` is not modelled. The only place where the width shows is best-fit's MaxInt64 starting value, which is kept: a node with that much leftover or more is never chosen.
- Node identifiers must be non-empty, because best-fit and worst-fit use the empty string to mean "nothing selected".
- Manager.NodeManager.AddPodHandler: consistency is promised only when the new pod's id is not already in use; the uuid's uniqueness is an assumption of the source, not something it checks.
