# Verification of the libAGML runtime

libAGML runs asynchronous gossip learning: daemons on several computers replay one model text, instantiate
the nodes it assigns to them on their threads, and let the nodes exchange messages with random neighbours.
This project models the parts of it whose correctness is not visible in any single function, and proves
the properties they are meant to have.

* **Gossip averaging** (`PushSum`, `Mixing`, `NodeAvg`). A node halves its sum and weight and sends one half;
  a failed send is undone; a receiver adds. Over every run the mass is conserved, every share is a
  non-negative combination of the inputs, estimates stay in the range of the inputs, and the disagreement
  around any reference never exceeds that of the inputs. `NodeAvg` is the node itself, on arrays changed in
  place.
* **Gossip K-means** (`Lloyd`, `KMeans`, `KMeansNetwork`, `NodeRun`, `KMeansNode`). An isolated node runs Lloyd
  iterations whose error never rises and stops within a computed bound. A network of nodes accounts for
  every statistic in every reachable state and refines gossip averaging; over its life every node keeps its
  schedule of sends and E-steps and finishes for one of two reasons only. `KMeansNode` has the buffers and
  the messages that point into them, and shows that every way of delivery hands over the values of the time
  of sending.
* **Topology** (`Threads`, `Topology`, `ModelReplay`, `Replicas`, `Assignments`, `Degrees`, `Routing`, `Arrows`,
  `Draws`, `Delivery`, `TopologyObject`, `TopologyReader`). How many nodes each statement creates, on which
  threads, and what its arrows reach; when replays of one model text agree across daemons, when cached degrees
  are exact and drawn indices safe, how loads stay balanced, and when neighbour indices are a bijection onto
  nodes, through stamping and decoding on the other daemon.
* **Serialisation** (`Wire`, `InfoDump`, `InfoUpdate`, `InfoReport`). Message framing under any chunking of the
  stream, the two-pass dump of statistics with its reader, and the way of the statistics from a daemon over
  the root to a client.
* **Distribution and life cycle** (`DataDistribution`, `Lifecycle`, `Flood`, `DaemonObject`). Retried parts are
  delivered once and complete, threads leave their loop when their nodes have finished, and a model floods
  its tree exactly once per daemon.

`dafny verify dfyconfig.toml` checks everything. Nothing here executes the C++ program.

## How the code is represented

Objects whose methods update fields are classes with the same fields, arrays where the source has buffers.
Each method is tied by its postcondition to a function, and the theorems are about those functions. What
the network, the scheduler and `rand()` decide is an action list or a parameter, so a statement about
every action list is a statement about every run. Floats are reals; a division by zero of an empty cluster,
which yields a value no comparison accepts, is an absent centroid; `FLT_MAX` is the error of a point that no
centroid accepts. The constants of the source are kept: 100 small improvements before a node finishes,
no M-step under a weight of 0.00001, 22 header bytes, 16-bit element counts, records of 72 and 64 bytes on a
64-bit little-endian machine.

Hypotheses that come from the source:

* A node instantiated by the default library starts with its scalar fields zeroed, because instances are
  value-initialised; so `NodeEM::m` and `NodeAvg::w` start at 0.
* A K-means node receives one training part only.
* Matrices that meet have equal dimensions, parts are not empty, K is at least 1, and a send either delivers
  whole or fails whole.
* Host names identify daemons.

Where the code does not meet a property outright, the exact condition is proved instead:

* Nodes and messages account for all training rows if and only if no turn of the run overflows its neighbours
  and every codebook message finds its receiver with its training part (`RowsAccountedIff`), and then for every
  other statistic too (`AccountingKept`). An overflow throws after the statistics have been halved. A message
  that comes too early is lost: `S += S_in` throws after `s_MSE` has been added to, the runtime swallows the
  exception (`src/libagml_comm/agml/node.cpp:114-117`), and the later initialisation overwrites `s_MSE`.
* The cached degrees survive a joining host if and only if the host is `Faithful` to every link of its group,
  and they survive a whole replay, change by change, if and only if every join is (`ReplayIsExactIff`). A join
  is not when the very first host of a self-excluding self-link brings no node (`EmptyFirstHost`: the counter
  becomes -1), or when the first local host of a `-L>` self-link follows a remote one (`LateLocalHost`).
* A drawn neighbour index never overflows if and only if the replay made at least as many empty first joins to
  the group as late local ones and, for K-means nodes, not more than twice the out-degree more (`DrawnIndexIff`).
  Averaging nodes draw from a positive counter only; K-means nodes test for zero only
  (`src/agml_node_clustering/NodeKMeans.cpp:167`) and also draw from a negative counter. `NegativeCounterOverflows`
  gives a text after which the only node of a group overflows on every M-step and loses half its mass each time.
* The numbers of a group lead to different nodes if and only if no remote host has brought nodes to it twice
  (`InjectiveIff`, `RepeatedHostCollides`), and neighbour indices are a bijection if and only if no link other
  than a `-L>` one leads to a group with such a repeat (`RoutingBijection`).
* The daemon that spread the model has read all `Host` lines beforehand. It agrees with the other daemons if
  and only if every wildcard assignment to an existing group follows the last `Host` line that declares a new
  host (`SpreaderAgreesIffTimely`, `EarlyWildcardDisagrees`).
* A daemon reaches the end of a model text if and only if it can execute every statement: named hosts are
  declared, its own nodes go to threads that exist by then, and no group with hosts is assigned like itself
  (`ReplayEndsIff`).
* A network of daemons stays a forest if and only if each entering or inviting makes a root the slave of a
  daemon outside its own tree (`BuiltForest`); neither command tests this.
* A message is read back whole if and only if it has fewer than 65536 elements; otherwise the unread elements
  stay in the stream.
* A stamp round-trips if and only if both ids are below 2^31, and a name in a dump if and only if it holds no
  zero byte.
* A thread whose loop has begun and that is told to leave it never leaves an unfinished node behind if and only
  if no node is added to it after it was told (`NoneAbandonedIff`, and for the whole daemon `NewDaemonIff`).
  Adding nodes before the loops begin, as reading a topology does, is always safe (`StartUpIsSafe`); a node
  added between the last finish and the loop test is abandoned (`LateAddIsAbandoned`).

Where documentation and code differ, the model follows the code. The tutorials set `S = X` and `w = 1` when the
data arrives (`doc/tutorial_3.html:38`); the code adds `X` and 1 to what earlier gossip may have left
(`src/agml/nodes/basic/NodeAvg.cpp:56-62`). The tutorial's `NodeData` detaches when all data is sent
(`doc/tutorial_4.html:111`); the code finishes the node and counts an empty part as taken.

## Model

| member | source | states |
|---|---|---|
| PushSum.FailedSendIsStutter | src/agml/nodes/basic/NodeAvg.cpp:78-85 | A failed send leaves the whole network as it was: doubling undoes halving. |
| PushSum.SelfLoopIsStutter | src/agml/nodes/basic/NodeAvg.cpp:74-105 | A message to oneself, delivered at once, leaves the whole network as it was. |
| PushSum.StepEnergy | src/agml/nodes/basic/NodeAvg.cpp:74-105 | For every evenly splitting measure f, one action changes the network total of f by exactly what the absorbing node gains beyond f of what it absorbs; sends change nothing. |
| PushSum.StepConserves | src/agml/nodes/basic/NodeAvg.cpp:56-105 | One action changes the network's total of each coordinate of S, and of w, exactly as it changes the inputs' total. |
| PushSum.Conservation | src/agml/nodes/basic/NodeAvg.cpp:48-106 | In every run, S and w summed over nodes and messages in flight equal the sums over the inputs injected so far. |
| PushSum.ExecWf | src/agml/nodes/basic/NodeAvg.cpp:48-106 | In every run each allocated node and each message holds a sum of the common size and a positive weight. |
| PushSum.VarianceIdentity | src/agml/nodes/basic/NodeAvg.cpp:101-102 | The weighted square of a merged mean is that of the parts less u v/(u+v) times the squared gap. |
| PushSum.MergeLosesSpread | src/agml/nodes/basic/NodeAvg.cpp:94-102 | Merging two shares lowers w (S/w - c)^2 by exactly Jensen's gap, which is never negative. |
| PushSum.LyapunovStep | src/agml/nodes/basic/NodeAvg.cpp:74-105 | Splits and rollbacks keep the Lyapunov function for every reference c; a delivery lowers it by exactly Jensen's gap, or keeps it at a node without S; an input adds at most its own. |
| PushSum.Lyapunov | src/agml/nodes/basic/NodeAvg.cpp:48-106 | In every run the disagreement around any c, over nodes and messages, is at most that of the inputs. |
| Mixing.MixingMatrix | src/agml/nodes/basic/NodeAvg.cpp:48-106 | Every reachable network has coefficients alpha >= 0 with S = sum alpha_j X_j and w = sum alpha_j w_j at every node and message, each input's coefficients adding up to 1. |
| Mixing.BlendBetween | src/agml/nodes/basic/NodeAvg.cpp:64-66 | Bounds that hold for every input hold for every non-negative blend of them. |
| Mixing.EstimatesStayInRange | src/agml/nodes/basic/NodeAvg.cpp:64-105 | In every run, every estimate S/w at a node or in a message lies between the least and the greatest input ratio of its coordinate. |
| NodeAveraging.NodeAvg.InitSumWeight | src/agml/nodes/basic/NodeAvg.cpp:48-54 | S becomes a fresh zero buffer of the given size and w becomes 0. |
| NodeAveraging.NodeAvg.OnTrainingData | src/agml/nodes/basic/NodeAvg.cpp:56-62 | The training data is absorbed with weight 1 and left unchanged; a size mismatch changes neither S nor w. |
| NodeAveraging.NodeAvg.OnGradient | src/agml/nodes/basic/NodeAvg.cpp:94-105 | The share of the time of receipt is absorbed, also when the message's buffer is the node's own S, and the estimate S/w is published exactly when all sizes agree. |
| NodeAveraging.NodeAvg.Update | src/agml/nodes/basic/NodeAvg.cpp:64-66 | X holds S/w afterwards when it was unallocated or of the same size; S is untouched. |
| NodeAveraging.NodeAvg.Process | src/agml/nodes/basic/NodeAvg.cpp:74-88 | With a taken message the node keeps half and the receiver absorbs exactly that half; a refused message or one to itself leaves the node as it was; an index beyond the neighbours leaves it halved; both nodes stay well-formed. |
| Buffers.AddInto | src/agml/math/Matrix.cpp:99-102 | a becomes the element-wise sum of the old a and b, also when b is a itself; another b is unchanged. |
| Buffers.SubFrom | src/agml/math/Matrix.cpp:103-106 | a becomes the element-wise difference of the old a and b, also when b is a itself; another b is unchanged. |
| Buffers.ScaleBy | src/agml/math/Matrix.cpp:96-97 | Every element of a is multiplied by f. |
| Buffers.AddRows | src/agml/math/Matrix.cpp:99-102 | The same as AddInto for a matrix of rows, with the same aliasing allowed. |
| Lloyd.NearestIsLeast | src/agml_node_clustering/NodeKMeans.cpp:149-155 | The scan finds a centroid of least squared distance whenever there is one, the last among equals, and never an empty cluster's. |
| Lloyd.SqDistIsSum | src/agml/math/Matrix.cpp:91 | The distance is the sum over the coordinates of the squared differences. |
| Lloyd.ErrorsAreLeastCost | src/agml_node_clustering/NodeKMeans.cpp:148-160 | The error accumulated by an E-step is the cost of its own assignment, and no other assignment costs less. |
| Lloyd.CentroidsAreBest | src/agml_node_clustering/NodeKMeans.cpp:100-105 | The centroids of an assignment have at most the cost of any other codebook for that assignment. |
| Lloyd.PullsAreBalances | src/agml_node_clustering/NodeKMeans.cpp:93-94 | Summing first-order terms over points equals summing them over clusters from the cluster sums and counts. |
| Lloyd.LloydStep | src/agml_node_clustering/NodeKMeans.cpp:100-164 | One iteration from any assignment costs no more than that assignment did under any codebook, and an empty cluster stays empty. |
| Lloyd.UncountedIsZero | src/agml_node_clustering/NodeKMeans.cpp:88-98 | A cluster that counts no point sums to zero and no point is assigned to it. |
| KMeans.LloydMonotone | src/agml_node_clustering/NodeKMeans.cpp:100-164 | An E-step of an isolated node replaces exactly its own contribution, and its error is at most the previous E-step's. |
| KMeans.ErrorNeverRises | src/agml_node_clustering/NodeKMeans.cpp:141-164 | Over any number of turns after the first E-step the accumulated error never rises and empty clusters stay empty. |
| KMeans.KeepsPace | src/agml_node_clustering/NodeKMeans.cpp:115-123 | A node unfinished after t turns has t <= 1 + 100 r + tepsilon, where its r resets cost at least r epsilon of the first MSE. |
| KMeans.TerminationBound | src/agml_node_clustering/NodeKMeans.cpp:100-123 | With epsilon > 0 an isolated node finishes within 1 + 100 (floor(e1/epsilon) + 1) E-steps, e1 being the MSE its first E-step produces. |
| KMeansNetwork.SumsPartition | src/agml_node_clustering/NodeKMeans.cpp:88-98 | Whatever the assignment, the cluster sums add up to the sum of the points and the counts to their number. |
| KMeansNetwork.Exec | src/agml_node_clustering/NodeKMeans.cpp:88-198 | In every run, at every node and in every message, the cluster weights add up to w0 > 0, and so does the node's own contribution to its number of rows; a message that comes before the training part is lost. |
| KMeansNetwork.TurnOk | src/agml_node_clustering/NodeEM.cpp:76-81 | A turn either leaves the node with exactly half its statistics, the other half being sent or lost by an overflow, or leaves the sum over clusters and w0 unchanged, and keeps the node's invariant. |
| KMeansNetwork.EStepOk | src/agml_node_clustering/NodeKMeans.cpp:141-164 | An E-step changes neither the sum over clusters of S nor w0. |
| KMeansNetwork.StepKeepsBalance | src/agml_node_clustering/NodeKMeans.cpp:141-198 | No action changes the difference between what nodes and messages hold and what the nodes contributed, for any entry of S, any weight, the error and w0. |
| KMeansNetwork.Accounting | src/agml_node_clustering/NodeKMeans.cpp:88-198 | In every reachable state the totals of S, w, s_MSE and w0 over nodes, live messages and messages lost by overflowing or by coming too early equal the totals of S_new, w_new, s_MSE_new and the numbers of rows over nodes. |
| KMeansNetwork.NothingLostIff | src/libagml_comm/agml/node.cpp:107-117 | Nothing is lost in a run if and only if no turn overflows its neighbours and each codebook message that arrives finds its receiver with its training part. |
| KMeansNetwork.RowsAccountedIff | src/libagml_comm/agml/node.cpp:83-117 | Nodes and live messages alone account for every training row if and only if no turn of the run overflowed its neighbours and every codebook message that arrived reached a node that had its training part. |
| KMeansNetwork.AccountingKept | src/agml_node_clustering/NodeKMeans.cpp:88-198 | In such a run nodes and live messages alone account for every entry of S, every cluster weight, the error and w0. |
| KMeansNetwork.StepRefines | src/agml_node_clustering/NodeKMeans.cpp:141-198 | With the clusters forgotten, E-steps, refused sends, lost arrivals and FINISH messages are stutters of gossip averaging, a sent M-step is its split, an overflowing one a split whose message is never delivered, and a delivery its merge. |
| KMeansNetwork.RunRefines | src/agml_node_clustering/NodeKMeans.cpp:88-198 | Every K-means run is a run of gossip averaging. |
| KMeansNetwork.MeansStayInRange | src/agml_node_clustering/NodeKMeans.cpp:88-198 | The overall mean held by any node or message of any run lies in the range of the parts' means. |
| NodeRuns.CodebookIsMean | src/agml_node_clustering/NodeKMeans.cpp:100-123 | For every node, gossiping or not: a cluster has a centroid if and only if the weight held for it is not zero, and then it is the sum held over that weight; the MSE is the error held over w0; patience counts a small improvement or starts again, and 100 finish the node. |
| NodeRuns.EStepTallies | src/agml_node_clustering/NodeKMeans.cpp:141-164 | For every node: the own contribution after an E-step is the tally of the points nearest to each centroid of the codebook just computed, last among equals, and its error the sum of their distances. |
| NodeRuns.EStepKeepsOthers | src/agml_node_clustering/NodeKMeans.cpp:157-163 | An E-step leaves in the statistics exactly what others have contributed. |
| NodeRuns.FirstStepImproves | src/agml_node_clustering/NodeKMeans.cpp:64-70 | The first E-step of a fresh node counts as a large improvement, since the error before it is infinite. |
| NodeRuns.MStepMeaning | src/agml_node_clustering/NodeKMeans.cpp:166-182 | An M-step does nothing under weight 0.00001 or when refused, and otherwise leaves exactly half of every statistic; the send counter advances unless the send threw. |
| NodeRuns.TurnPosts | src/agml_node_clustering/NodeKMeans.cpp:170-182 | A turn puts on the way a codebook message to the chosen neighbour with exactly what the node keeps, and FINISH messages exactly when it finished the node and there are neighbours; no other node changes. |
| NodeRuns.DeliveryMerges | src/agml_node_clustering/NodeKMeans.cpp:184-197 | A codebook message that arrives in time is added to its receiver, to nobody else, and is gone. |
| NodeRuns.ScheduleStep | src/agml_node_clustering/NodeEM.cpp:76-81 | With neighbours each turn moves one step on in a schedule of M sends and one E-step. |
| NodeRuns.EStepsMade | src/agml_node_clustering/NodeEM.cpp:76-81 | After t turns with neighbours a node has made t / (M + 1) E-steps and the rest M-steps, whatever it received. |
| NodeRuns.NodeLives | src/agml_node_clustering/NodeEM.cpp:61-89 | In every run of the network a trained node lives the life its own turns and messages give it. |
| NodeRuns.NetworkSchedule | src/agml_node_clustering/NodeEM.cpp:76-81 | The same count of E-steps in every run of the network. |
| NodeRuns.FinishesExactly | src/agml_node_clustering/NodeKMeans.cpp:115-123 | A node has finished if and only if it was told to or its last 100 E-steps all improved the MSE by less than epsilon; its patience is the exact length of that series. |
| NodeRuns.NetworkFinish | src/agml_node_clustering/NodeKMeans.cpp:115-123 | In every run of the network a node that received no FINISH has finished only after 100 small improvements in a row. |
| NodeRuns.NeverTired | src/agml_node_clustering/NodeKMeans.cpp:112 | With epsilon zero or less a node finishes only when told to. |
| NodeRuns.FinishStops | src/agml_node_clustering/NodeKMeans.cpp:197-198 | A FINISH message finishes its receiver, changes nothing else, and no later turn of it has an effect. |
| NodeRuns.FinishedStays | src/libagml_comm/simulation/Thread.cpp:123-133 | A finished node stays finished, keeps its contribution and codebook, and takes no more turns. |
| KMeansNodes.HalvesBack | src/agml_node_clustering/NodeKMeans.cpp:170-182 | Halving then doubling a load, or halving it and adding the half to itself, gives the load back. |
| KMeansNodes.Message.GetNext | src/libagml_comm/common/Message.h:88-92 | The element under the cursor and a cursor moved by one, or the overflow exception at the end. |
| KMeansNodes.Message.Copy | src/libagml_comm/common/Message.cpp:153-167 | For any message, every element gets a buffer of its own with the same values, so later writes to the sender's buffers cannot reach the copy. |
| KMeansNodes.NodeKMeans.constructor | src/agml_node_clustering/NodeKMeans.cpp:64-98 | A node initialised on X holds the tally of the random assignment as its own contribution and as its statistics, in buffers of its own. |
| KMeansNodes.NodeKMeans.InitCodebook | src/agml_node_clustering/NodeKMeans.cpp:88-98 | The in-place tally of the random assignment leaves the state the initial-node function describes. |
| KMeansNodes.NodeKMeans.ComputeCodebook | src/agml_node_clustering/NodeKMeans.cpp:100-123 | New centroids, MSE, patience and finished flag, and nothing else, change as the specification says. |
| KMeansNodes.NodeKMeans.FindNearest | src/agml_node_clustering/NodeKMeans.cpp:149-155 | The loop over the centroids computes the nearest one of the specification. |
| KMeansNodes.NodeKMeans.AssignPoints | src/agml_node_clustering/NodeKMeans.cpp:148-160 | The in-place tally equals the sums, counts and error of the nearest-centroid assignment. |
| KMeansNodes.NodeKMeans.EStep | src/agml_node_clustering/NodeKMeans.cpp:141-164 | The E-step on the buffers has exactly the effect of the E-step on values. |
| KMeansNodes.NodeKMeans.OnCodebook | src/agml_node_clustering/NodeKMeans.cpp:184-197 | The load of the time of receipt is merged in, also when the message points into the receiver itself; a foreign message keeps its values. |
| KMeansNodes.NodeKMeans.Deliver | src/libagml_comm/topology/NodeGroup.cpp:162-177 | Queue, socket and direct call all hand over the sender's values of this moment; a refusal doubles them back. |
| KMeansNodes.NodeKMeans.MStep | src/agml_node_clustering/NodeKMeans.cpp:166-182 | Whatever the route, what leaves is the halved load; a refused message and one to oneself restore the node; an index beyond the neighbours leaves it halved and throws; nothing happens without neighbours or under weight 0.00001. |
| KMeansNodes.NodeKMeans.Process | src/agml_node_clustering/NodeEM.cpp:76-81 | One turn of the object is one turn of the network model, at the sender, at a direct receiver, in what is queued or written, and when the M-step throws. |
| KMeansNodes.SendThenWork | src/libagml_comm/common/Message.cpp:153-167 | A queued message still holds the halves of the time of sending after the sender has rewritten its buffers in an E-step. |
| KMeansNodes.LateDelivery | src/libagml_comm/topology/NodeGroup.cpp:164-168 | A receiver that gets that message later merges exactly those halves, and the sender is unaffected. |
| Threads.EvenLoads | src/libagml_comm/topology/NodeGroup.cpp:332-342 | An even assignment of nb nodes gives every one of T threads nb / T of them and the lightest thread the nb % T left over. |
| Threads.PlacementOrder | src/libagml_comm/topology/NodeGroup.cpp:332-342 | In an even assignment the nodes left over come first, all on the lightest thread, then the share of that thread, of the next one, and so on around. |
| Threads.EvenKeepsBalance | src/libagml_comm/topology/NodeGroup.cpp:332-342 | An even assignment keeps all loads within T - 1 of each other. |
| Threads.EvenTotal | src/libagml_comm/topology/NodeGroup.cpp:332-352 | An even assignment instantiates exactly the requested number of nodes. |
| Threads.LoadBalance | src/libagml_comm/topology/NodeGroup.cpp:332-352 | Any sequence of even assignments over T empty threads instantiates exactly the requested totals and keeps max load - min load <= T - 1. |
| Threads.BoundIsReached | src/libagml_comm/topology/NodeGroup.cpp:336-339 | T - 1 is reached for every T, so no smaller bound holds. |
| Threads.ThreadPool.GetLightest | src/libagml_comm/simulation/Thread.cpp:208-217 | The scan returns the first thread of least load. |
| Threads.ThreadPool.InstantiateEvenly | src/libagml_comm/topology/NodeGroup.cpp:332-342 | The loops return the placement of the specification in order, and the loads grow by it. |
| Threads.ThreadPool.InstantiateOn | src/libagml_comm/topology/NodeGroup.cpp:343-352 | nb nodes are placed on the given thread and on no other. |
| Topologies.AddLinkKeepsDegrees | src/libagml_comm/topology/NodeGroup.cpp:60-69 | Connecting two groups keeps every cached degree equal to the sum over links of the reached nodes. |
| Topologies.AddLinkKeepsLinked | src/libagml_comm/topology/Topology.cpp:65-69 | Every link stays listed by both its ends, in the same order. |
| Topologies.FaithfulExactly | src/libagml_comm/topology/NodeGroup.h:253-261 | For one link, an empty first join leaves the counter one short, a late local join one too high, and every other join is exact. |
| Topologies.AddHostKeepsDegrees | src/libagml_comm/topology/NodeGroup.cpp:220-226 | A joining host keeps every cached degree of every group exact if and only if it is faithful to every link of its group. |
| Topologies.EmptyFirstHost | src/libagml_comm/topology/NodeGroup.h:253-256 | A first host without nodes on a self-excluding self-link drives the out-degree counter to -1. |
| Topologies.LateLocalHost | src/libagml_comm/topology/NodeGroup.h:253-261 | A local host that joins a `-L>` self-link after a remote one leaves the counter 1 above the true degree. |
| Topologies.CounterGap | src/libagml_comm/topology/NodeGroup.cpp:220-226 | How much farther each counter of each group is off after a join is exactly the sum of what its links to the joined group miss. |
| ModelReplay.StepViews | src/libagml_comm/topology/TopologyReader.cpp:77-159 | A statement that does not abort changes groups, links and counts per (group, host) the same way on every daemon, and keeps local nodes numbered consecutively. |
| ModelReplay.ReplayViews | src/libagml_comm/topology/TopologyReader.cpp:128-159 | A whole replay ends in views that do not depend on who replays, and in a well-formed daemon. |
| Replicas.FollowersAgree | src/libagml_comm/topology/TopologyReader.cpp:96-159 | Any two daemons that did not spread the model agree, after every statement both have executed, on group ids, link order and node counts per (group, host). |
| Replicas.SpreaderAgreesIffTimely | src/libagml_comm/common/Commands.cpp:138-152 | The daemon that spread the model agrees with the others if and only if every wildcard assignment to an existing group follows the last declaration of a new host. |
| Replicas.ReplaysAgreeIff | src/libagml_comm/common/Commands.cpp:138-152 | Two finished replays agree if and only if both or neither of the daemons spread the model, or every wildcard is timely. |
| Replicas.EarlyWildcardDisagrees | src/libagml_comm/topology/TopologyReader.cpp:115-118 | On a concrete text with a wildcard before the second Host line, the spreader and the others end with different groups. |
| Replicas.BelievedIsInstantiated | src/libagml_comm/topology/NodeGroup.cpp:275-292 | What a daemon believes about any daemon's share of a group, that of the spreader included, is what that daemon instantiates for its own entries, wildcards, all-thread and same-as assignments included, and it instantiates nothing for entries of others. |
| Replicas.ReplayEndsIff | src/libagml_comm/topology/TopologyReader.cpp:96-159 | A daemon reaches the end of a text if and only if each statement is executable: named hosts are declared before, its own nodes go to threads that exist by then, and no group that has hosts is assigned like itself. |
| Replicas.StepIff | src/libagml_comm/topology/TopologyReader.cpp:96-124 | One statement is executed without exception, crash or endless loop if and only if it is executable. |
| Replicas.HostsAreDeclared | src/libagml_comm/topology/TopologyReader.cpp:63-75 | Each declared host is known once, with the number of threads of its first declaration, and no other host is. |
| Assignments.NamedAssignCounts | src/libagml_comm/topology/TopologyReader.cpp:112-123 | An assignment to a named host gives the first group of that name nb nodes there, or nb for each thread of the host with `*` threads, here as nodes, elsewhere as a count, and changes no other group. |
| Assignments.WildcardAssignCounts | src/libagml_comm/topology/TopologyReader.cpp:115-119 | A wildcard assignment gives every data host such a share, in the order of declaration, and changes no other group. |
| Assignments.SameAssignCounts | src/libagml_comm/topology/NodeGroup.cpp:90-103 | A same-as assignment repeats every host of the other group, with all its nodes or as many as the limit allows, each own node on the thread of its model. |
| Assignments.OnThreadLoads | src/libagml_comm/topology/NodeGroup.cpp:343-352 | A thread number puts every node on that thread and changes no other load. |
| Assignments.EvenShares | src/libagml_comm/topology/NodeGroup.cpp:332-342 | Without one every thread gets an even share and the lightest what is left over. |
| Assignments.EveryThreadGetsAll | src/libagml_comm/topology/TopologyReader.cpp:122 | `* [nb]` raises the load of every thread of the own host by exactly nb. |
| Assignments.LoadsCountNodes | src/libagml_comm/topology/NodeGroup.cpp:365-385 | After any replay the loads of the threads add up to the local nodes of all groups, and every local node runs on a thread that exists. |
| Assignments.ReplayKeepsBalance | src/libagml_comm/topology/NodeGroup.cpp:332-342 | Statements that leave the choice of threads to the daemon keep balanced loads within the number of threads less one of each other. |
| Degrees.ReplayIsExactIff | src/libagml_comm/topology/NodeGroup.cpp:60-69 | On any daemon and for any text, the cached degrees are exact after every single link, group and host that the replay adds if and only if every joining host is faithful to the links its group has then. |
| Degrees.ApplyCached | src/libagml_comm/topology/NodeGroup.cpp:220-226 | One change of the groups keeps exact counters exact if and only if it is no unfaithful join. |
| Degrees.TameTextIsExact | src/libagml_comm/topology/TopologyReader.cpp:96-159 | A text whose assignments bring nodes and whose `-L>` links join different groups keeps every counter exact on every daemon. |
| Degrees.HistoryGap | src/libagml_comm/topology/NodeGroup.cpp:60-69 | After any changes, the cached out-degree of a group misses one neighbour per empty first join and has one too many per late local join, counted over its links. |
| TopologyReaders.TopologyReader.Read | src/libagml_comm/topology/TopologyReader.cpp:128-159 | Executing the statements against the mutable topology, data hosts and threads ends in the state of the replay function, or aborts where it does. |
| TopologyReaders.TopologyReader.Assign | src/libagml_comm/topology/TopologyReader.cpp:96-124 | The in-place assignment, wildcards included, is the assignment of the replay, exceptions and null accesses being aborts. |
| TopologyReaders.TopologyReader.AssignSame | src/libagml_comm/topology/NodeGroup.cpp:90-103 | The in-place same-as assignment copies the placement of every host up to the limit as the replay says. |
| TopologyReaders.TopologyReader.DeclareHost | src/libagml_comm/topology/TopologyReader.cpp:63-80 | A host is recorded once, and the daemon's own host creates its threads, as in the replay. |
| TopologyReaders.TopologyReader.PlaceNodes | src/libagml_comm/topology/NodeGroup.cpp:332-352 | The loops place the nodes in the order and on the threads the specification lists, and nothing changes where no thread fits. |
| TopologyObjects.Topology.Connect | src/libagml_comm/topology/Topology.cpp:65-69 | The in-place connect adds the link to both lists and keeps exact counters exact. |
| TopologyObjects.Topology.AnnounceHost | src/libagml_comm/topology/NodeGroup.cpp:220-226 | The two loops over the links add to each counter exactly the increments of its own links. |
| TopologyObjects.Topology.AddLocalHost | src/libagml_comm/topology/NodeGroup.cpp:332-385 | Instantiating and announcing nodes in place is the host join of the specification, new nodes numbered after the group's local ones. |
| TopologyObjects.Topology.AddRemoteHost | src/libagml_comm/topology/NodeGroup.cpp:275-292 | A remote host joins with its believed count and no nodes. |
| TopologyObjects.Topology.GetLocalNode | src/libagml_comm/topology/NodeGroup.cpp:125-131 | The walk over the local hosts finds the node the specification finds, or none. |
| TopologyObjects.Topology.Send | src/libagml_comm/topology/NodeGroup.cpp:162-183 | The walk over local, then remote hosts reaches the specified address, or overflows where it does. |
| TopologyObjects.Topology.SendOut | src/libagml_comm/topology/NodeGroup.cpp:147-160 | The walk over the links reaches the specified target, or overflows where it does. |
| Routing.ResolvePosition | src/libagml_comm/topology/NodeGroup.cpp:162-183 | Without a repeated remote host, every existing node has a number below the group's size, local ones first, and the number resolves to the node. |
| Routing.PositionResolve | src/libagml_comm/topology/NodeGroup.cpp:162-183 | Without a repeated remote host, the number that led to a node is the node's number. |
| Routing.ResolveTotal | src/libagml_comm/topology/NodeGroup.cpp:162-183 | A number of a group resolves if and only if it is below the group's size, and then to an existing node, a local one exactly for the first numbers, whether or not hosts are repeated. |
| Routing.RepeatedHostCollides | src/libagml_comm/topology/NodeGroup.cpp:171-180 | When a remote host has brought nodes to a group twice, two numbers of the group lead to one node. |
| Routing.InjectiveIff | src/libagml_comm/topology/NodeGroup.cpp:162-183 | The numbers of a group lead to different nodes if and only if no remote host has brought nodes to it twice. |
| Routing.FindLinkTotal | src/libagml_comm/topology/NodeGroup.cpp:147-160 | The walk over the links fails exactly on indices from the sum of the link degrees on. |
| Routing.RouteTotal | src/libagml_comm/topology/NodeGroup.cpp:147-183 | On every well-formed daemon an index is routed if and only if it is below the out-degree, and then to an existing node the link reaches. |
| Routing.RouteSound | src/libagml_comm/topology/NodeGroup.cpp:147-183 | A routed index leads to a node the link reaches, and on a link without repeats is that node's index. |
| Routing.RouteComplete | src/libagml_comm/topology/NodeGroup.h:247-251 | Every node reached by a link without repeats has an index below the out-degree, and that index leads to it. |
| Routing.RoutingBijection | src/libagml_comm/topology/NodeGroup.cpp:125-183 | Indices below the out-degree lead to pairs (link, existing reached node), never the sender on a self-excluding self-link, never another host on `-L>`; they are a bijection onto these pairs if and only if no other link leads to a group with a repeated remote host. |
| Draws.DrawnIndexIff | src/agml_node_clustering/NodeKMeans.cpp:166-181 | No draw overflows if and only if the replay made at least as many empty first joins to the group as late local ones and, for a K-means node, which also draws from a negative counter, at most twice the out-degree more. |
| Draws.DrawnIndexNeverOverflows | src/libagml_comm/topology/NodeGroup.cpp:147-160 | Without late local joins no averaging node's draw overflows, and no K-means node's unless the counter has become negative, so halved mass is not lost to the overflow exception. |
| Draws.NegativeCounterOverflows | src/agml_node_clustering/NodeKMeans.cpp:167-178 | A concrete text: after an empty first assignment of a self-linked group, its only K-means node draws index 0 from the counter -1, which overflows, although no local join was late. |
| Draws.DrawsIff | src/agml_node_clustering/NodeKMeans.cpp:178 | All values of rand() modulo the counter lead to a node if and only if the counter's absolute value is at most the out-degree. |
| Routing.StampRoundTrip | src/libagml_comm/common/com.cpp:105-119 | Stamping then decoding group and node ids gives them back if and only if both are below 2^31. |
| Routing.DecodeStamp | src/libagml_comm/common/com.cpp:105-115 | On a well-formed daemon the stamp of two ids decodes if and only if they are those of a local node, and then to that very node. |
| Routing.EndToEnd | src/libagml_comm/topology/NodeGroup.cpp:162-177 | The stamp of a routed message decodes, on the replay of the host it is sent to, to the node that was meant; either end may be the daemon that spread the model. |
| Routing.AddressExistsThere | src/libagml_comm/topology/NodeGroup.cpp:275-292 | A daemon takes an address to exist if and only if the host it names has that many nodes of the group. |
| Arrows.ArrowMeaning | src/libagml_comm/topology/TopologyReader.cpp:130-142 | Over a link made by `-L>` every message stays on the sender's host; over `->` from a group to itself none comes back to its sender; over `-o>` from a group to itself each node reaches itself. |
| Arrows.ArrowReaches | src/libagml_comm/topology/TopologyReader.cpp:130-142 | A new link reaches a node of its target if and only if the arrow does not exclude it: other hosts for `-L>`, the sender itself unless `-o>`. |
| Delivery.DeliveryBijection | src/libagml_comm/topology/NodeGroup.cpp:125-183 | Between agreeing replays, every index below the out-degree and no other lands, through link, host, stamp and decoding, on a node that the replay of its host has instantiated; the landings are a bijection onto the pairs (link, such node) if and only if no link other than a `-L>` one leads to a group with a repeated remote host. |
| Delivery.LandsAsRouted | src/libagml_comm/common/com.cpp:105-119 | A message lands exactly on the node it was routed to. |
| Wire.IntRoundTrip | src/libagml_comm/common/Message.cpp:100-104 | A signed integer that fits in n bytes is read back as itself. |
| Wire.HeaderLayout | src/libagml_comm/common/Message.cpp:124-131 | A message starts with source, destination, channel and number of elements, in 8, 8, 4 and 2 bytes, and its elements follow. |
| Wire.EltLayout | src/libagml_comm/common/Message.cpp:132-139 | Each element is its size in 8 bytes, then its bytes, a null or empty one only a zero size. |
| Wire.ByteAt | src/libagml_comm/common/Message.cpp:127-131 | Byte k of an integer is its k-th digit to base 256, the lowest first. |
| Wire.EltsRoundTrip | src/libagml_comm/common/Message.cpp:105-139 | Reading n of the written elements yields the first n, null or empty ones as empty, and leaves the rest of the stream. |
| Wire.ReadWritten | src/libagml_comm/common/Message.cpp:92-140 | What a reader makes of any written message, also of one whose element count was truncated to 16 bits. |
| Wire.MessageRoundTrip | src/libagml_comm/common/Message.cpp:92-140 | A message is read back with nothing left over if and only if it has fewer than 65536 elements. |
| Wire.StreamRoundTrip | src/libagml_comm/common/Message.cpp:92-140 | Reading a concatenation of written messages yields the same sequence of sources, destinations, channels and elements. |
| Wire.CutMessage | src/libagml_comm/common/Message.cpp:92-117 | Any proper part of a written message is read as no message. |
| Wire.CutStream | src/libagml_comm/tcp/Socket.cpp:201-212 | A stream that breaks off inside a message yields exactly the messages before it. |
| Wire.Socket.ReadExactly | src/libagml_comm/tcp/Socket.cpp:201-218 | However recv cuts the stream, exactly the next bytes are returned and the rest remains, or the stream was too short and the closed exception is raised. |
| Wire.Socket.ReadMessage | src/libagml_comm/common/Message.cpp:92-117 | Reading through the socket equals parsing the byte stream, for every chunking. |
| Wire.Transmit | src/libagml_comm/common/Message.cpp:92-140 | End to end, for every chunking, the messages received are the messages written. |
| InfoDump.PtrStream.Put | src/libagml_comm/util/utils.h:167-174 | The pointer advances by the size in both passes, and only the writing pass puts the bytes. |
| InfoDump.PtrStream.PutAll | src/libagml_comm/topology/Topology.cpp:93-115 | Both passes advance by the length of the dump of any topology, and the second one leaves exactly its bytes. |
| InfoDump.Dump | src/libagml_comm/topology/Topology.cpp:93-151 | The size measured in pass one is the number of bytes written in pass two, and the buffer then is the dump. |
| InfoDump.GroupLayout | src/libagml_comm/topology/Topology.cpp:99-102 | A group is dumped as name, class, number of hosts and hosts. |
| InfoDump.HostLayout | src/libagml_comm/topology/Topology.cpp:104-114 | A host is dumped as name, number of nodes, 64 bytes of its own and 72 bytes per node. |
| InfoDump.NodeLayout | src/libagml_comm/topology/Topology.cpp:107-113 | Node record k is at 72 k, a missing one as zeros. |
| InfoUpdate.CStringWhole | src/libagml_comm/util/utils.cpp:117-126 | A name survives the trip if and only if it holds no zero byte. |
| InfoUpdate.UpdateHostNodes | src/libagml_comm/topology/Topology.cpp:165-176 | After an update each node record is what was sent, else what was known, else zeros. |
| InfoUpdate.DumpBack | src/libagml_comm/topology/Topology.cpp:125-179 | Parsing the dump of any records gives the records back, missing ones as zeros, with nothing left over. |
| InfoUpdate.HostsLearn | src/libagml_comm/topology/Topology.cpp:161-177 | Updating from records of distinct hosts makes each named host's records equal the data and leaves every other host unchanged. |
| InfoUpdate.GroupsLearn | src/libagml_comm/topology/Topology.cpp:153-179 | The same over all groups of a dump. |
| InfoUpdate.UpdateHostsIff | src/libagml_comm/topology/Topology.cpp:161-177 | The hosts of a group can be updated if and only if the reader has each of them with room for its nodes. |
| InfoUpdate.UpdateGroupIff | src/libagml_comm/topology/Topology.cpp:155-178 | A group can be updated if and only if it brings no hosts, or is known and all its hosts fit. |
| InfoUpdate.InfoTable.UpdateInfos | src/libagml_comm/topology/Topology.cpp:153-179 | The reading loop changes the table as the specification says, or stops at a group or host it does not have. |
| InfoReports.Report | src/libagml_comm/topology/Topology.cpp:125-179 | After a daemon's report, for every local host of the daemon the root's records equal the daemon's, a missing one counting as zeros, and no other record has changed. |
| InfoReports.ReportAndAsk | src/libagml_comm/common/Commands.cpp:194-256 | After a report, a client that asks the root for everything reads, for every local host of the daemon, exactly the daemon's records. |
| InfoReports.LocalRecordsShow | src/libagml_comm/topology/Topology.cpp:125-142 | A local dump holds name, own record and node records of every local host, and of no other. |
| InfoReports.RecordShows | src/libagml_comm/topology/Topology.cpp:103-114 | The record of a host in a full dump shows its name, its own record and what is known of each node, zeros for what is not. |
| InfoReports.LearnedIsRelayed | src/libagml_comm/topology/Topology.cpp:93-123 | Whatever the root has learned from a report is what its dump of all infos contains under the same group and host. |
| InfoReports.ReplaysExpectReports | src/libagml_comm/topology/Topology.cpp:153-179 | A root that has replayed the same text in agreement expects the report of any daemon when no group name and no host of a group is used twice. |
| InfoReports.CanLearnIff | src/libagml_comm/topology/NodeGroup.cpp:137-142 | The reader can learn anything about a host entry of a group, from any data, if and only if the entry is the first of its name. |
| DataDistribution.PartsCover | src/agml/math/Matrix.h:217-223 | The n parts concatenate to exactly the matrix, also when n exceeds the number of rows. |
| DataDistribution.PartSizes | src/agml/math/Matrix.h:217-223 | With at least n rows every part has the quotient of them and the last one the rest as well; with fewer each row is a part and the other parts are null. |
| DataDistribution.PartsDisjoint | src/agml/math/Matrix.h:217-223 | Different parts share no row. |
| DataDistribution.EveryRunAccounted | src/agml/nodes/data/NodeData.cpp:67-93 | For any pattern of failures nback is the number of acks, an acked non-empty part has been delivered exactly once with its own rows and no other has, and a finished node has had all acks. |
| DataDistribution.FinishesIff | src/agml/nodes/data/NodeData.cpp:67-93 | After any history of failures a turn finishes the node, or finds it finished, if and only if each part is empty, once a turn has been made, or has been taken in some earlier turn. |
| DataDistribution.CleanTurnsFinish | src/agml/nodes/data/NodeData.cpp:67-93 | After any history, the initial state included, a turn without failures and one more leave the node finished. |
| DataDistribution.FinishedMeansDelivered | src/agml/nodes/data/NodeData.cpp:67-93 | When the provider has finished, the delivered parts in index order are exactly the rows of X, none twice. |
| DataDistribution.NodeData.Process | src/agml/nodes/data/NodeData.cpp:67-93 | One turn on the ack array and the shared row buffer is one turn of the specification on the rows as generated, whichever messages the transport takes and whatever receivers have overwritten. |
| DataDistribution.NodeData.Overwrite | src/agml/com/message.cpp:56-62 | A receiver that overwrites the rows it was handed reaches no part still to be sent. |
| DataDistribution.ProvideShared | src/agml/nodes/data/NodeData.cpp:67-93 | Whatever the receivers write into their parts between turns, the provider goes through the turns of its original matrix. |
| DataDistribution.NodeData.TakePart | src/agml/math/Matrix.h:217-223 | The part taken from the buffer is the part of the rows it holds at that moment. |
| Lifecycle.StepOk | src/libagml_comm/agml/node.cpp:147-165 | Attach, detach, finish and add keep: in the list exactly once if attached and not at all otherwise, and nb_running_nodes counts the added unfinished nodes. |
| Lifecycle.EveryRunOk | src/libagml_comm/simulation/Thread.cpp:65-84 | The same in every run in which each node is added once and none finishes before. |
| Lifecycle.NoneAbandonedIff | src/libagml_comm/simulation/Thread.cpp:65-74 | In any run, a thread whose loop has begun and that is told to leave it never leaves an unfinished node behind if and only if none was left behind at the beginning and no node is added to a thread that has been told to leave. |
| Lifecycle.StartUpIsSafe | src/libagml_comm/topology/Topology.cpp:73-77 | When all nodes are added before the loop begins, as reading a topology does, no node is ever left behind. |
| Lifecycle.LeavesLoopIff | src/libagml_comm/simulation/Thread.cpp:107-111 | While no node is added to it after it was told to leave, a thread whose loop has begun is told to leave if and only if some node has finished since and all its nodes have finished. |
| Lifecycle.LateAddIsAbandoned | src/libagml_comm/simulation/Thread.cpp:107-111 | A node added between the last finish and the loop test is left unfinished by a thread that leaves. |
| Lifecycle.ExitMeansFinished | src/libagml_comm/simulation/Thread.cpp:203-206 | From any daemon state, no thread ever leaves, and the daemon never exits, over an unfinished node if and only if the state is sound and no node is added to a thread that has been told to leave. |
| Lifecycle.NewDaemonIff | src/libagml_comm/simulation/Thread.cpp:194-206 | The same from threads without nodes whose loops have not begun, through adding, starting and finishing. |
| Lifecycle.Node.Attach | src/libagml_comm/agml/node.cpp:147-152 | The node joins its thread's list unless it is attached already. |
| Lifecycle.Node.Detach | src/libagml_comm/agml/node.cpp:154-159 | The node leaves its thread's list unless it is detached already. |
| Lifecycle.Node.Finish | src/libagml_comm/agml/node.cpp:161-165 | Finishing has an effect once: the count drops, the last one ends the loop, the node leaves the list, and the thread keeps its other members. |
| Lifecycle.Thread.AddNode | src/libagml_comm/simulation/Thread.cpp:65-68 | The count rises and the node is attached. |
| Lifecycle.Thread.Remove | src/libagml_comm/simulation/Thread.cpp:70-74 | The count drops, a count of zero ends the loop, and the node is detached. |
| Lifecycle.Thread.BeginLoop | src/libagml_comm/simulation/Thread.cpp:107-108 | The thread runs from the first statement of its loop on. |
| Flood.BuildStepIff | src/libagml_comm/common/com.cpp:224-238 | One entering or inviting keeps a forest if and only if it makes a root the slave of a daemon outside its own tree. |
| Flood.BuiltForest | src/libagml_comm/common/com.cpp:224-238 | While daemons enter and invite, the network is always a forest (one master at most, no cycle, slave lists mirroring masters) if and only if each step makes a root the slave of a daemon outside its own tree. |
| Flood.StarterFits | src/libagml_comm/common/com.cpp:224-229 | A daemon that starts, with no master and no slave, may enter at any other daemon. |
| Flood.InvitedIsSubscribed | src/libagml_comm/common/Commands.cpp:87-92 | In a forest, an inviting host outside the tree of a root is none of its slaves, so the removal from the slaves takes nothing away. |
| Flood.RootIsNoSlave | src/libagml_comm/common/Commands.cpp:120-127 | In a forest a root is in no list of slaves. |
| Flood.ApplySpreads | src/libagml_comm/common/Commands.cpp:161-169 | Applying at a daemon and passing on to its slaves covers every daemon below it exactly once and no other. |
| Flood.DeliverOnce | src/libagml_comm/common/Commands.cpp:135-169 | Any arrival keeps, for every daemon, applications done plus commands on their way equal to what is expected of it. |
| Flood.RunOnce | src/libagml_comm/common/Commands.cpp:135-169 | The same after any interleaving of arrivals. |
| Flood.DeliverDecreases | src/libagml_comm/common/Commands.cpp:135-169 | Every arrival decreases the number of daemons yet to apply plus levels yet to climb. |
| Flood.ModelFlood | src/libagml_comm/common/Commands.cpp:135-169 | In every network built by such steps and under every interleaving, a model requested anywhere is applied at most once by each daemon of the tree and by no other, exactly once when nothing is left in flight, and the flood ends. |
| DaemonObjects.Daemon.OnModel | src/libagml_comm/common/Commands.cpp:154-158 | The handler does exactly what the network does when this command arrives: the root applies and floods, any other daemon passes it to its masters. |
| DaemonObjects.Daemon.OnSetTopology | src/libagml_comm/common/Commands.cpp:161-169 | The handler sends to every slave and applies once, which is what the network does when this command arrives. |
| DaemonObjects.Daemon.OnInvitation | src/libagml_comm/common/Commands.cpp:87-92 | The inviter is added to the masters and its first occurrence removed from the slaves. |
| DaemonObjects.Daemon.OnRootWelcome | src/libagml_comm/common/Commands.cpp:120-127 | The root is remembered and taken out of the slaves, which in a forest changes no list. |
| DaemonObjects.Daemon.Enter | src/libagml_comm/common/com.cpp:224-229 | Both ends record the new master and slave. |
| DaemonObjects.Daemon.Invite | src/libagml_comm/common/com.cpp:231-238 | Both ends record the invitation, and the invited daemon drops the inviter from its slaves. |
| DaemonObjects.Build | src/libagml_comm/common/com.cpp:224-238 | One step made by the daemon objects turns the network they represent into the one the step function gives. |
| DaemonObjects.BuildAll | src/libagml_comm/common/com.cpp:224-238 | Daemons that make any series of entering and inviting steps represent exactly the network built by these steps. |

## Left out

- Sockets, DNS, pthreads, semaphores, mutexes and shared memory: only atomic steps and a byte stream remain. A receive timeout or error is not distinguished from a closed connection.
- Floating-point rounding, overflow and NaN: reals are used, and a non-empty cluster whose distance exceeds `FLT_MAX` is not treated apart.
- `rand()`: every choice is a parameter or an entry of the action list.
- Tokenising of model texts: statements are taken after parsing, and a text that names an unknown statement is not modelled.
- JSON output, logging, rates, file saving, dynamic loading of node classes, shell commands and the client and server mains: input and output plumbing.
- Eigen, QR, inverse and gram operations and trimmed views of matrices: not used by the parts modelled.
- `remove_in` and `remove_out`, which the source does not implement, and a second training part for the same K-means node.
- Negative node counts, negative limits other than "no limit", negative numbers of threads and thread numbers other than `*`: counts are naturals.
- `connect_hosts_as_needed` and connection failures: a send to an unconnected host is a refused send of the action list.
- Nodes leaving the thread between even assignments: the load theorem counts instantiated nodes, as in the stated hypothesis that nothing else attaches or detaches.
- The height and width elements of a matrix message and the ownership flags that decide who frees a buffer: a matrix travels as one element, and memory reclamation is not modelled.
- Message elements that do not form a codebook, and non-codebook channels of the K-means node other than FINISH.
- Groups, links and hosts as heap objects: `Topology` keeps them as records in a sequence and links name groups by id, so aliasing between group pointers is not captured.
- Linked message lists and iterators: `Message` holds a sequence and an index.
- An isolated daemon's invitations during a `model` command: they are `Invite` steps before the request. Daemons entering or inviting while a flood is under way are not covered.
- `notify_subscription` and the names of subscribers: they tell the root whom to greet and change no list of masters or slaves. That `root_welcome` takes the root out of the slaves is modelled; in a forest the root is nobody's slave.
- A node class that cannot be instantiated: every instantiation succeeds.
- `data_host` commands that register hosts before the model text is read, and models read on top of an earlier one.
- Replicas.FollowersAgree: does not say what a statement that aborts has done before it aborted.
- KMeansNetwork.Exec: a FINISH message waits until its receiver has its training part.
- DataDistribution.NodeData.Process: the number of neighbours is fixed over a run and not negative, where the source fails to allocate its ack array; the source reads past its ack array if it grows. Receivers overwrite between turns, not during one.
- NodeAveraging.NodeAvg.Process: covers nodes that hold a share; a node without S is detached and gets no turn.
- InfoUpdate.InfoTable.UpdateInfos: a dump that ends early is not covered, since the source reads past it; what the table holds after a failed update is not stated.
- Routing.EndToEnd: needs fewer than 2^31 groups and a node id below 2^31, which the stamp requires.
- Lifecycle.ExitMeansFinished: a thread that has ended is not started again, and no thread is created later on.
- InfoReports.ReplaysExpectReports: names used twice in a group or a topology are excluded, since the reader takes the first match; `CanLearnIff` tells which host entries it can reach.
