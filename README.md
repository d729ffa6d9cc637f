# Airport epidemic simulation: a verified model

`Airport.py` simulates an epidemic spreading over a graph of airports.
Nodes are airports. Each node has an infection status: susceptible,
infected or cured. Each directed flight route has a transmission weight.
The whole graph is loaded with every node susceptible and every weight 0.1.
Then some chosen nodes are infected, and each simulated day runs four steps
in order:

1. **Reweight.** Every edge gets a fresh weight, drawn from an interval set
   by the status of the edge's source node.
2. **Infect.** A susceptible node becomes infected when the mean weight of its
   inbound edges is below the cutoff 0.10.
3. **Cure.** A random sample of at most a third of the infected nodes is cured.
4. **Measure.** A metrics row is written: the three status counts and the mean
   inbound weight of the infected nodes.

The project has five modules:

- `Wrappers` holds `Option`.
- `Sums` holds a finite sum of real weights over a set and proves the sum does
  not depend on the order its elements are taken in. It also has cardinality
  facts about duplicate-free sequences and sets of pairs.
- `Epidemic` states every step as a function of the state it starts from:
  `Reweight`, `InfectionStep`, `Assign`, `MetricsOf`, a whole day (`Cycle`)
  and a whole run (`Trace`). It proves the properties of these steps.
- `Airport` has `class Graph` with fields `nodes`, `status`, `edges` and
  `weight`. Its methods overwrite these fields in place, with loops, as
  `Airport.py` does. Each step method (reweighting, infection, curing,
  seeding, metrics, one day and the whole run) is proved to reach the state
  that the matching `Epidemic` function describes. `AddRoute` and the
  constructor have no `Epidemic` counterpart: their `ensures` state the new
  fields directly.
- `AsWritten` models the three places where `Airport.py` does something other
  than what it evidently intends (see "## Findings").

Randomness is supplied by the caller:

- Reweighting takes one unit draw `u` in [0, 1] per edge. The new weight is
  `lo + (hi - lo) * u`, which is how `random.uniform` is defined.
- Curing and seeding take the sampled nodes as a sequence, with the
  preconditions a correct sampler meets.
- The driver takes a `Draws` value: a unit draw for each (day, edge) and a
  sampler from (day, infected set) to a sequence of nodes.

## Model

| member | source | states |
|---|---|---|
| Epidemic.RetrieveNodes | Airport.py:38-39 | a node is in the result if and only if it is a node with the requested status |
| Epidemic.Count | Airport.py:156-160 | the number of nodes with a given status is at most the number of nodes |
| Epidemic.CountsPartition | Airport.py:155-160 | the susceptible, infected and cured counts add up to the number of nodes |
| Epidemic.Range | Airport.py:131-139 | each status's interval lies strictly inside (0, 1) with its lower end below its upper end; only the infected interval starts above 0.49, the other two end at or below 0.49, and only the susceptible interval starts below 0.25 |
| Epidemic.Reweight | Airport.py:141-143 | the new weights are defined on exactly the edges; each edge's weight is scaled into the interval of its own source's status |
| Epidemic.UniformInRange | Airport.py:131-142 | a unit draw in [0, 1] rescaled to a status's interval lies in that interval (infected [0.50, 0.75], cured [0.25, 0.49], susceptible [0.02, 0.49]) |
| Epidemic.ReweightInRange | Airport.py:125-145 | after reweighting, every edge's weight lies in the interval of its source node's status, and so in [0, 1] |
| Sums.SumRemove | Airport.py:81-82 | the summed weight does not depend on the order the edges are visited in: any edge may be taken first |
| Epidemic.AverageInbound | Airport.py:78-83 | the mean inbound weight of a node is undefined exactly when the node has no inbound edge |
| Epidemic.Infects | Airport.py:83-85 | a node that satisfies the infection rule has at least one inbound edge |
| Epidemic.InfectsByTotal | Airport.py:80-85 | the rule holds exactly when the node has inbound edges and their total weight is below the cutoff times their number |
| Epidemic.InfectionStep | Airport.py:71-90 | the infection step is a simultaneous rule over the statuses at the start of the step; it keeps the node set |
| Epidemic.InfectionOnlyAdvancesSusceptible | Airport.py:75-86 | every node keeps its status or moves from susceptible to infected; infected and cured nodes are never changed |
| Epidemic.NoInboundStaysPut | Airport.py:83 | a node without inbound edges keeps its status whatever the cutoff |
| Epidemic.SingleInboundDecides | Airport.py:80-86 | a susceptible node with one inbound edge is infected exactly when the cutoff exceeds that edge's weight |
| Epidemic.NonSusceptibleSourcesBlockInfection | Airport.py:85 | after reweighting, a node whose inbound edges all come from infected or cured nodes has a mean inbound weight of at least 0.25 and is not infected at the cutoff 0.10 |
| Epidemic.ValidSample | Airport.py:98-99 | a valid cure sample holds distinct infected nodes, as many as its length and at most floor(infected / 3); with fewer than three infected nodes only the empty sample is valid |
| Epidemic.Assign | Airport.py:101-103 | every chosen node that exists gets the value, every node not chosen keeps its status, the node set is unchanged, and an empty choice changes nothing |
| Epidemic.CureBound | Airport.py:95-103 | curing with a valid sample changes exactly the sampled nodes, each from infected to cured, and so changes at most floor(infected / 3) nodes |
| Epidemic.CureNothingBelowThree | Airport.py:96-99 | with fewer than three infected nodes the sample is empty and curing changes nothing, including when nothing is infected |
| Epidemic.SeedFromLoaded | Airport.py:186-190 | seeding an all-susceptible graph makes the infected set exactly the chosen nodes, with node_count infected and the rest susceptible |
| Epidemic.AvgInfectedInbound | Airport.py:110-123 | the mean weight over all edges into infected nodes is undefined exactly when there is no such edge |
| Epidemic.MetricsOf | Airport.py:152-162 | a metrics row's counts add up to the node count, and with no infected node the average is undefined |
| Epidemic.AverageIsProbability | Airport.py:110-123 | when every weight is in [0, 1], the reported average is also in [0, 1] |
| Epidemic.Cycle | Airport.py:64-68 | one day is reweight, then infect at 0.10, then cure a sample of the infected set after the infection step; the graph stays well formed and keeps its node set |
| Epidemic.Trace | Airport.py:64 | a run from day d to stop has one state per day for max(0, stop - d) days |
| Epidemic.TraceStatesOk | Airport.py:64-68 | every state of a run is well formed and has the nodes the run started with |
| Epidemic.CycleForward | Airport.py:64-68 | within a day every status stays or moves forward (susceptible, infected, cured), and cured is absorbing |
| Epidemic.CycleWeights | Airport.py:64-65 | the weights at the end of a day lie in the intervals of the statuses of the edges' source nodes at the start of that day |
| Epidemic.TraceForward | Airport.py:64-68 | across a run every status only moves forward, both from the start to any day and from each day to the next |
| Epidemic.RunForward | Airport.py:64-68 | a run ends with every status at or beyond where it started |
| Epidemic.RunCounts | Airport.py:64-68 | every metrics row of a measured run counts all nodes of the graph |
| Epidemic.TraceWeights | Airport.py:64-65 | the weights of each day of a run lie in the intervals of the statuses reached on the previous day |
| Airport.SumWeights | Airport.py:80-82 | the loop that adds up a set of edge weights returns their sum and their number |
| Airport.Graph.constructor | Airport.py:12 | an empty directed graph, valid and in the loaded state |
| Airport.Graph.AddRoute | Airport.py:22-32 | a line "a b" adds nodes a and b if new, each starting susceptible (the properties `get_node_props`, lines 42-46, gives), adds the edge (a, b) with weight 0.1, and keeps existing nodes' statuses; a loaded graph stays loaded |
| Airport.Graph.Properties | Airport.py:170-184 | the node and edge counts, with at most node_count squared edges |
| Airport.Graph.RecalEdgeWeights | Airport.py:125-145 | the visit over nodes and their out-edges leaves exactly the weights of Reweight, each in its source's interval; statuses, nodes and edges are unchanged |
| Airport.Graph.SimulateInfection | Airport.py:71-90 | visiting the initially susceptible nodes one at a time, in any order, gives the simultaneous rule InfectionStep; weights, nodes and edges are unchanged |
| Airport.Graph.EvaluateNode | Airport.py:78-86 | one loop body: the node is infected exactly when it has inbound edges and the cutoff exceeds their mean weight; nothing else changes |
| Airport.Graph.Mark | Airport.py:101-103 | writing the chosen nodes' status one at a time gives Assign: those nodes get the value and no other node changes |
| Airport.Graph.SimulateCuring | Airport.py:92-108 | exactly the sampled nodes change, each from infected to cured, at most floor(infected / 3) of them; weights and edges are unchanged |
| Airport.Graph.FindAvgEdgeWeights | Airport.py:110-123 | the node-by-node accumulation gives the mean weight of all edges into infected nodes, or none when there is no such edge |
| Airport.Graph.ComputeMetrics | Airport.py:152-162 | reads the graph only and returns MetricsOf the current state, whose counts add up to the node count |
| Airport.Graph.InfectNodes | Airport.py:186-190 | a node_count in [0, number of nodes] infects exactly the chosen distinct nodes, and on a loaded graph then exactly node_count are infected; any other count changes nothing |
| Airport.Graph.SimulateDay | Airport.py:64-68 | one loop pass leaves the state Cycle describes and returns that state's metrics row |
| Airport.Graph.RunSimulationCycle | Airport.py:49-68 | runs days 1 to no_of_days - 1: max(0, no_of_days - 1) rows, row k the metrics of the k-th state of Trace, the final graph the last state of Trace, the node set preserved, every status moved only forward, every row counting all nodes |
| AsWritten.IndexedNode | Airport.py:78 | the node looked up for the loop variable j is the one-character identifier j[0] |
| AsWritten.InfectionAsWritten | Airport.py:71-90 | the step as written: it fails when some susceptible j's node j[0] has no inbound edge, and otherwise keeps the node set |
| AsWritten.SingleCharacterTargets | Airport.py:76-78 | with one-character identifiers the nodes `simulate_infection` evaluates are exactly the susceptible ones |
| AsWritten.SingleCharacterIdsAgree | Airport.py:76-86 | with one-character identifiers the step as written, when it does not fail, equals InfectionStep |
| AsWritten.AsWrittenReinfectsCured | Airport.py:78-86 | for nodes "4" (cured) and "45" (susceptible) and the route 45 -> 4 of weight 0.05, the step as written infects the cured node "4", while InfectionStep changes nothing |
| AsWritten.AsWrittenCrashesWithoutInbound | Airport.py:83 | for the edge list "A B" the step as written fails, while InfectionStep leaves A susceptible |
| AsWritten.MetricsAsWritten | Airport.py:152-162 | the metrics row as written exists exactly when some edge enters an infected node |
| AsWritten.MetricsAsWrittenAgrees | Airport.py:110-123 | where the row as written exists it equals MetricsOf |
| AsWritten.AsWrittenMetricsCrash | Airport.py:122 | for the edge list "A B" with A infected, the row as written fails, while MetricsOf reports (1, 1, 0, none) |

## Left out

- Reading the edge-list file (lines 14-19), the JSON dump of the graph after each reweighting (lines 149, 193-196), the CSV metrics file (lines 63, 163-168), logging and every `print`: these are input and output. `AddRoute` models the body of the loader's loop for one already split line.
- The `from_node` and `to_node` edge attributes (lines 144-145): they only repeat the edge's own key and are not modelled.
- Random number generation: every draw is a parameter. `random.uniform` is written through a unit draw. `random.randint` followed by `random.sample` becomes any duplicate-free sample of the infected nodes of size at most floor(infected / 3).
- `generate_ErdosRenyiGraph` and the `__main__` block are not part of this model.
- Floating point: weights and averages are exact reals, so rounding in sums and divisions is not modelled.
- `Airport.py` relies on the networkx 1.x interface (`G.node`, `G.edge`, `nodes_iter`, positional attribute dictionaries). The model uses the graph semantics that interface gives.
- Airport.Graph.SimulateInfection: follows the evident intent, not the code as written. It evaluates node j rather than j[0] and leaves a node without inbound edges unchanged instead of dividing by zero. The code as written is `AsWritten.InfectionAsWritten` (see "## Findings").
- Airport.Graph.FindAvgEdgeWeights: returns none where `find_avg_edge_weights` divides by zero and ends the run. The code as written is `AsWritten.MetricsAsWritten`.
- Airport.Graph.InfectNodes: a count outside [0, number of nodes] returns false. `infect_nodes` raises `ValueError` from `random.sample` there.
- Airport.Graph.RunSimulationCycle: requires only a valid graph, not a freshly loaded one, because in `Airport.py` the seeding runs before the driver.

## Findings

| source | as written | input that shows it | evidently intended | confidence | as-written member | corrected member |
|---|---|---|---|---|---|---|
| Airport.py:78-86 | `j` is a node identifier, so `G.in_edges(j[0])` and `G.node[j[0]]` use the node named by its first character | nodes "4" (cured) and "45" (susceptible), route 45 -> 4 with weight 0.05: node "4" is infected again | evaluate and update node `j` itself | high (not executed) | AsWritten.AsWrittenReinfectsCured | Epidemic.InfectionStep |
| Airport.py:83 | `summed_prob / len(in_bound_edges)` divides by zero for a susceptible node with no inbound edge | edge list "A B": node A has no inbound edge | such a node is not infected | high (not executed) | AsWritten.AsWrittenCrashesWithoutInbound | Epidemic.NoInboundStaysPut |
| Airport.py:122 | `total_weight / counter` divides by zero when no edge enters an infected node, including when nothing is infected | edge list "A B" seeded with A: the first metrics row fails | report the counts with no average | high (not executed) | AsWritten.AsWrittenMetricsCrash | Epidemic.MetricsOf |
