/** The epidemic engine on values: a directed graph whose nodes carry an
    infection status and whose edges carry a transmission weight, and the
    four steps of one simulated day (reweight, infect, cure, measure) as
    functions of the state they start from. The class in module Airport
    performs the same steps in place and is proved equal to these. */
module Epidemic {
  import opened Wrappers
  import opened Sums

  /** A node is identified by the token the edge list names it with. */
  type Node = string

  /** A directed edge (from, to). */
  type Edge = (Node, Node)

  datatype Status = Susceptible | Infected | Cured

  /** A status may only move up this order: susceptible, infected, cured. */
  function Rank(s: Status): nat {
    match s
    case Susceptible => 0
    case Infected => 1
    case Cured => 2
  }

  /** The status a node is created with (get_node_props). */
  const InitialStatus: Status := Susceptible

  /** The weight an edge is created with by the loader. */
  const InitialWeight: real := 0.1

  /** The infection cutoff the driver passes to every infection step. */
  const Cutoff: real := 0.10

  /** Every edge has a weight, and both of its endpoints are nodes. */
  ghost predicate WellFormed(status: map<Node, Status>, edges: set<Edge>, weight: map<Edge, real>) {
    && weight.Keys == edges
    && forall e :: e in edges ==> e.0 in status && e.1 in status
  }

  /** Every weight is a probability. */
  ghost predicate WeightsBounded(weight: map<Edge, real>) {
    forall e :: e in weight ==> 0.0 <= weight[e] <= 1.0
  }

  // ---------------------------------------------------------------------
  // Status filter and counts

  /** The nodes whose status is `value` (retrieve_infected_nodes). */
  function RetrieveNodes(status: map<Node, Status>, value: Status): (r: set<Node>)
    ensures forall n :: n in r <==> n in status && status[n] == value
  {
    set n | n in status.Keys && status[n] == value
  }

  /** How many nodes have status `value` (the len(...) calls of compute_metrics). */
  function Count(status: map<Node, Status>, value: Status): (c: nat)
    ensures c <= |status|
  {
    var r := RetrieveNodes(status, value);
    SubsetCard(r, status.Keys);
    |r|
  }

  /** The three status classes partition the node set. */
  lemma CountsPartition(status: map<Node, Status>)
    ensures Count(status, Susceptible) + Count(status, Infected) + Count(status, Cured) == |status|
  {
    var s, i, c := RetrieveNodes(status, Susceptible), RetrieveNodes(status, Infected), RetrieveNodes(status, Cured);
    assert s + i + c == status.Keys;
    assert s !! i && (s + i) !! c;
    assert |s + i| == |s| + |i|;
  }

  // ---------------------------------------------------------------------
  // Edge reweighting

  /** The interval a fresh weight is drawn from, chosen by the status of
      the edge's source node. */
  function Range(s: Status): (r: (real, real))
    ensures 0.0 < r.0 < r.1 < 1.0
    ensures s == Infected <==> 0.49 < r.0
    ensures s != Infected ==> r.1 <= 0.49
    ensures s == Susceptible <==> r.0 < 0.25
  {
    match s
    case Infected => (0.50, 0.75)
    case Cured => (0.25, 0.49)
    case Susceptible => (0.02, 0.49)
  }

  ghost predicate InRange(x: real, s: Status) {
    Range(s).0 <= x <= Range(s).1
  }

  /** A uniform draw from [lo, hi], written through the unit draw u in
      [0, 1] that it rescales (random.uniform computes lo + (hi - lo) * u). */
  function Uniform(range: (real, real), u: real): real {
    range.0 + (range.1 - range.0) * u
  }

  /** One unit draw in [0, 1] for every edge. */
  ghost predicate UnitDraws(edges: set<Edge>, u: map<Edge, real>) {
    && edges <= u.Keys
    && forall e :: e in edges ==> 0.0 <= u[e] <= 1.0
  }

  /** The weights after reweighting: each edge gets its own draw, scaled to
      the interval of its source's status. */
  function Reweight(status: map<Node, Status>, edges: set<Edge>, u: map<Edge, real>): (r: map<Edge, real>)
    requires forall e :: e in edges ==> e.0 in status
    requires edges <= u.Keys
    ensures r.Keys == edges
  {
    map e | e in edges :: Uniform(Range(status[e.0]), u[e])
  }

  /** Part way through the node loop of recal_edge_weights: the out-edges
      of the nodes still in `rest` keep their old weight, every other edge
      has its new one. */
  ghost predicate ReweightedExcept(weight: map<Edge, real>, prior: map<Edge, real>, target: map<Edge, real>,
                                   edges: set<Edge>, rest: set<Node>) {
    && weight.Keys == prior.Keys == target.Keys == edges
    && forall e :: e in edges ==> weight[e] == if e.0 in rest then prior[e] else target[e]
  }

  /** Part way through the edge loop for node n: as ReweightedExcept, except
      that of n's out-edges only those in `todo` keep their old weight. */
  ghost predicate ReweightingNode(weight: map<Edge, real>, prior: map<Edge, real>, target: map<Edge, real>,
                                  edges: set<Edge>, rest: set<Node>, n: Node, todo: set<Edge>) {
    && weight.Keys == prior.Keys == target.Keys == edges
    && forall e :: e in edges ==>
      weight[e] == if (e.0 in rest && e.0 != n) || e in todo then prior[e] else target[e]
  }

  /** Starting on node n of `rest`: all of n's out-edges are still to do. */
  lemma ReweightNodeStart(weight: map<Edge, real>, prior: map<Edge, real>, target: map<Edge, real>,
                          edges: set<Edge>, rest: set<Node>, n: Node)
    requires ReweightedExcept(weight, prior, target, edges, rest) && n in rest
    ensures ReweightingNode(weight, prior, target, edges, rest, n, OutEdges(edges, n))
  {
  }

  /** Writing the new weight of one of n's pending out-edges. */
  lemma ReweightNodeEdge(weight: map<Edge, real>, prior: map<Edge, real>, target: map<Edge, real>,
                         edges: set<Edge>, rest: set<Node>, n: Node, todo: set<Edge>, e: Edge)
    requires ReweightingNode(weight, prior, target, edges, rest, n, todo) && e in todo && e in edges && e.0 == n
    ensures ReweightingNode(weight[e := target[e]], prior, target, edges, rest, n, todo - {e})
  {
  }

  /** Once no out-edge of n is pending, n is done. */
  lemma ReweightNodeDone(weight: map<Edge, real>, prior: map<Edge, real>, target: map<Edge, real>,
                         edges: set<Edge>, rest: set<Node>, n: Node)
    requires ReweightingNode(weight, prior, target, edges, rest, n, {})
    ensures ReweightedExcept(weight, prior, target, edges, rest - {n})
  {
  }

  lemma UniformInRange(s: Status, u: real)
    requires 0.0 <= u <= 1.0
    ensures InRange(Uniform(Range(s), u), s)
  {
  }

  /** Every reweighted edge lies in the interval of its source's status,
      and so in [0, 1]. */
  lemma ReweightInRange(status: map<Node, Status>, edges: set<Edge>, u: map<Edge, real>)
    requires forall e :: e in edges ==> e.0 in status
    requires UnitDraws(edges, u)
    ensures forall e :: e in edges ==> InRange(Reweight(status, edges, u)[e], status[e.0])
    ensures WeightsBounded(Reweight(status, edges, u))
  {
    var r := Reweight(status, edges, u);
    forall e | e in edges ensures InRange(r[e], status[e.0]) && 0.0 <= r[e] <= 1.0 {
      UniformInRange(status[e.0], u[e]);
    }
  }

  // ---------------------------------------------------------------------
  // Infection step

  function InEdges(edges: set<Edge>, n: Node): (r: set<Edge>)
    ensures forall e :: e in r <==> e in edges && e.1 == n
  {
    set e | e in edges && e.1 == n
  }

  function OutEdges(edges: set<Edge>, n: Node): (r: set<Edge>)
    ensures forall e :: e in r <==> e in edges && e.0 == n
  {
    set e | e in edges && e.0 == n
  }

  /** The mean weight of the edges into n; none when n has no inbound edge
      (simulate_infection divides by zero there). */
  ghost function AverageInbound(edges: set<Edge>, weight: map<Edge, real>, n: Node): (r: Option<real>)
    requires edges <= weight.Keys
    ensures r.None? <==> InEdges(edges, n) == {}
  {
    var ins := InEdges(edges, n);
    if ins == {} then None else Some(Sum(ins, weight) / (|ins| as real))
  }

  /** The infection rule for one node: its mean inbound weight is below the
      cutoff (the comparison points this way in simulate_infection). */
  ghost predicate Infects(edges: set<Edge>, weight: map<Edge, real>, cutoff: real, n: Node): (b: bool)
    requires edges <= weight.Keys
    ensures b ==> InEdges(edges, n) != {}
  {
    match AverageInbound(edges, weight, n)
    case None => false
    case Some(avg) => cutoff > avg
  }

  /** A node is infected exactly when it has inbound edges and their total
      weight is below cutoff times their number. */
  lemma InfectsByTotal(edges: set<Edge>, weight: map<Edge, real>, cutoff: real, n: Node)
    requires edges <= weight.Keys
    ensures var ins := InEdges(edges, n);
      Infects(edges, weight, cutoff, n) <==> ins != {} && Sum(ins, weight) < cutoff * (|ins| as real)
  {
    var ins := InEdges(edges, n);
    if ins != {} {
      var k, t := |ins| as real, Sum(ins, weight);
      assert k > 0.0;
      assert t == (t / k) * k;
      assert cutoff > t / k <==> cutoff * k > (t / k) * k;
    }
  }

  /** The infection step as a simultaneous rule over the statuses at the
      start of the step. */
  ghost function InfectionStep(status: map<Node, Status>, edges: set<Edge>, weight: map<Edge, real>, cutoff: real)
    : (r: map<Node, Status>)
    requires edges <= weight.Keys
    ensures r.Keys == status.Keys
  {
    map n | n in status.Keys ::
      if status[n] == Susceptible && Infects(edges, weight, cutoff, n) then Infected else status[n]
  }

  /** Part way through the infection loop of simulate_infection: the
      nodes still to visit have their starting status, every other node its
      status after the step. */
  ghost predicate InfectedExcept(status: map<Node, Status>, start: map<Node, Status>, target: map<Node, Status>, rest: set<Node>) {
    && status.Keys == start.Keys == target.Keys
    && forall n :: n in status ==> status[n] == if n in rest then start[n] else target[n]
  }

  /** Visiting one susceptible node j evaluates the rule for j alone, so it
      takes j from its starting status to its status after the step. */
  lemma InfectionVisit(status: map<Node, Status>, start: map<Node, Status>, edges: set<Edge>, weight: map<Edge, real>,
                       cutoff: real, rest: set<Node>, j: Node)
    requires edges <= weight.Keys
    requires InfectedExcept(status, start, InfectionStep(start, edges, weight, cutoff), rest)
    requires j in rest && j in start && start[j] == Susceptible
    ensures InfectedExcept(if Infects(edges, weight, cutoff, j) then status[j := Infected] else status,
                           start, InfectionStep(start, edges, weight, cutoff), rest - {j})
  {
  }

  /** Infection moves susceptible nodes to infected and nothing else:
      infected and cured nodes are untouched. */
  lemma InfectionOnlyAdvancesSusceptible(status: map<Node, Status>, edges: set<Edge>, weight: map<Edge, real>, cutoff: real)
    requires edges <= weight.Keys
    ensures forall n :: n in status ==>
      var after := InfectionStep(status, edges, weight, cutoff)[n];
      (after == status[n] || (status[n] == Susceptible && after == Infected))
    ensures forall n :: n in status && status[n] != Susceptible ==>
      InfectionStep(status, edges, weight, cutoff)[n] == status[n]
  {
  }

  /** A node without inbound edges keeps its status, whatever the cutoff. */
  lemma NoInboundStaysPut(status: map<Node, Status>, edges: set<Edge>, weight: map<Edge, real>, cutoff: real, n: Node)
    requires edges <= weight.Keys && n in status
    requires InEdges(edges, n) == {}
    ensures InfectionStep(status, edges, weight, cutoff)[n] == status[n]
  {
  }

  /** A susceptible node with exactly one inbound edge is decided by that
      edge's weight alone. */
  lemma SingleInboundDecides(status: map<Node, Status>, edges: set<Edge>, weight: map<Edge, real>, cutoff: real, e: Edge)
    requires edges <= weight.Keys && e.1 in status && status[e.1] == Susceptible
    requires InEdges(edges, e.1) == {e}
    ensures InfectionStep(status, edges, weight, cutoff)[e.1] == (if cutoff > weight[e] then Infected else Susceptible)
  {
    SumSingleton(weight, e);
    assert |{e}| == 1;
  }

  /** With freshly drawn weights, a node all of whose inbound edges come from
      infected or cured nodes has a mean inbound weight of at least 0.25, so
      it is never infected at the driver's cutoff of 0.10. */
  lemma NonSusceptibleSourcesBlockInfection(status: map<Node, Status>, edges: set<Edge>, u: map<Edge, real>, n: Node)
    requires forall e :: e in edges ==> e.0 in status
    requires UnitDraws(edges, u) && n in status
    requires forall e :: e in edges && e.1 == n ==> status[e.0] != Susceptible
    ensures InEdges(edges, n) != {} ==> AverageInbound(edges, Reweight(status, edges, u), n).value >= 0.25
    ensures InfectionStep(status, edges, Reweight(status, edges, u), Cutoff)[n] == status[n]
  {
    var w := Reweight(status, edges, u);
    var ins := InEdges(edges, n);
    ReweightInRange(status, edges, u);
    if ins != {} {
      SumAtLeast(ins, w, 0.25);
      var k := |ins| as real;
      assert k >= 1.0;
      assert Sum(ins, w) / k >= 0.25;
    }
  }

  // ---------------------------------------------------------------------
  // Curing and seeding

  /** A sampler's valid answer for curing: distinct members of the infected
      population, at most a third of it (k is drawn from [0, floor(n/3)]). */
  ghost predicate ValidSample(population: set<Node>, chosen: seq<Node>): (b: bool)
    ensures b ==> Elements(chosen) <= population && |Elements(chosen)| == |chosen| <= |population| / 3
    ensures |population| < 3 ==> (b <==> chosen == [])
  {
    && |chosen| <= |population| / 3
    && Distinct(chosen)
    && (DistinctCard(chosen); forall i :: 0 <= i < |chosen| ==> chosen[i] in population)
  }

  /** A sampler's valid answer for seeding: `count` distinct nodes. */
  ghost predicate ValidSeed(nodes: set<Node>, count: int, chosen: seq<Node>) {
    && |chosen| == count
    && Distinct(chosen)
    && forall i :: 0 <= i < |chosen| ==> chosen[i] in nodes
  }

  /** Give every chosen node the status `value`; every other node keeps its own. */
  function Assign(status: map<Node, Status>, chosen: seq<Node>, value: Status): (r: map<Node, Status>)
    ensures r.Keys == status.Keys
    ensures forall i :: 0 <= i < |chosen| && chosen[i] in status ==> r[chosen[i]] == value
    ensures forall n :: n in status && n !in chosen ==> r[n] == status[n]
    ensures chosen == [] ==> r == status
  {
    map n | n in status.Keys :: if n in chosen then value else status[n]
  }

  /** The nodes whose status differs between two snapshots. */
  ghost function Changed(before: map<Node, Status>, after: map<Node, Status>): set<Node>
    requires before.Keys == after.Keys
  {
    set n | n in before.Keys && after[n] != before[n]
  }

  /** Curing with a valid sample changes exactly the sampled nodes, each from
      infected to cured, and so at most a third of the infected nodes. */
  lemma CureBound(status: map<Node, Status>, chosen: seq<Node>)
    requires ValidSample(RetrieveNodes(status, Infected), chosen)
    ensures var after := Assign(status, chosen, Cured);
      && Changed(status, after) == Elements(chosen)
      && (forall n :: n in Changed(status, after) ==> status[n] == Infected && after[n] == Cured)
      && |Changed(status, after)| == |chosen| <= Count(status, Infected) / 3
  {
    var after := Assign(status, chosen, Cured);
    forall n | n in status.Keys ensures n in Changed(status, after) <==> n in chosen {
      if n in chosen {
        var i :| 0 <= i < |chosen| && chosen[i] == n;
      }
    }
    assert Changed(status, after) == Elements(chosen);
    DistinctCard(chosen);
  }

  /** With fewer than three infected nodes the drawn count is zero and
      curing changes nothing. */
  lemma CureNothingBelowThree(status: map<Node, Status>, chosen: seq<Node>)
    requires ValidSample(RetrieveNodes(status, Infected), chosen)
    requires Count(status, Infected) < 3
    ensures chosen == [] && Assign(status, chosen, Cured) == status
  {
  }

  /** Seeding a freshly loaded graph (every node susceptible) infects exactly
      the chosen nodes: `count` of them. */
  lemma SeedFromLoaded(status: map<Node, Status>, count: int, chosen: seq<Node>)
    requires ValidSeed(status.Keys, count, chosen)
    requires forall n :: n in status ==> status[n] == Susceptible
    ensures var after := Assign(status, chosen, Infected);
      && RetrieveNodes(after, Infected) == Elements(chosen)
      && Count(after, Infected) == count
      && Count(after, Susceptible) == |status| - count
  {
    var after := Assign(status, chosen, Infected);
    assert RetrieveNodes(after, Infected) == Elements(chosen);
    DistinctCard(chosen);
    CountsPartition(after);
    assert RetrieveNodes(after, Cured) == {};
  }

  // ---------------------------------------------------------------------
  // Metrics

  /** One row of the metrics output. The average is none when no infected
      node has an inbound edge (find_avg_edge_weights divides by zero there). */
  datatype Metrics = Metrics(susceptible: nat, infected: nat, cured: nat, avgInboundWeight: Option<real>)

  /** The edges that end in a node of ns. */
  function InEdgesOf(edges: set<Edge>, ns: set<Node>): (r: set<Edge>)
    ensures forall e :: e in r <==> e in edges && e.1 in ns
  {
    set e | e in edges && e.1 in ns
  }

  /** The edges into a set grown by one node are the old ones plus those into
      the new node, and when the node is new the two parts are disjoint. */
  lemma InEdgesOfAdd(edges: set<Edge>, done: set<Node>, n: Node)
    requires n !in done
    ensures InEdgesOf(edges, done + {n}) == InEdgesOf(edges, done) + InEdges(edges, n)
    ensures InEdgesOf(edges, done) !! InEdges(edges, n)
  {
  }

  /** Adding one more node's inbound weights and count to the totals over
      the nodes done so far gives the totals over both. */
  lemma AccumulateNode(edges: set<Edge>, weight: map<Edge, real>, done: set<Node>, n: Node)
    requires edges <= weight.Keys && n !in done
    ensures Sum(InEdgesOf(edges, done + {n}), weight) == Sum(InEdgesOf(edges, done), weight) + Sum(InEdges(edges, n), weight)
    ensures |InEdgesOf(edges, done + {n})| == |InEdgesOf(edges, done)| + |InEdges(edges, n)|
  {
    InEdgesOfAdd(edges, done, n);
    SumUnion(InEdgesOf(edges, done), InEdges(edges, n), weight);
  }

  /** The mean weight of the edges into infected nodes (find_avg_edge_weights). */
  ghost function AvgInfectedInbound(status: map<Node, Status>, edges: set<Edge>, weight: map<Edge, real>): (r: Option<real>)
    requires edges <= weight.Keys
    ensures r.None? <==> InEdgesOf(edges, RetrieveNodes(status, Infected)) == {}
  {
    var ins := InEdgesOf(edges, RetrieveNodes(status, Infected));
    if ins == {} then None else Some(Sum(ins, weight) / (|ins| as real))
  }

  /** The metrics of one state (compute_metrics). */
  ghost function MetricsOf(status: map<Node, Status>, edges: set<Edge>, weight: map<Edge, real>): (m: Metrics)
    requires edges <= weight.Keys
    ensures m.susceptible + m.infected + m.cured == |status|
    ensures m.infected == 0 ==> m.avgInboundWeight == None
  {
    CountsPartition(status);
    Metrics(Count(status, Susceptible), Count(status, Infected), Count(status, Cured),
            AvgInfectedInbound(status, edges, weight))
  }

  /** The reported average is a probability when every weight is one. */
  lemma AverageIsProbability(status: map<Node, Status>, edges: set<Edge>, weight: map<Edge, real>)
    requires edges <= weight.Keys && WeightsBounded(weight)
    ensures AvgInfectedInbound(status, edges, weight).Some? ==>
      0.0 <= AvgInfectedInbound(status, edges, weight).value <= 1.0
  {
    var ins := InEdgesOf(edges, RetrieveNodes(status, Infected));
    if ins != {} {
      SumAtLeast(ins, weight, 0.0);
      SumAtMost(ins, weight, 1.0);
      var k := |ins| as real;
      assert Sum(ins, weight) / k <= 1.0;
    }
  }

  // ---------------------------------------------------------------------
  // The simulated days

  /** The state the steps change: statuses and weights (nodes and edges are fixed). */
  datatype State = State(status: map<Node, Status>, weight: map<Edge, real>)

  ghost predicate StateOk(st: State, edges: set<Edge>) {
    WellFormed(st.status, edges, st.weight)
  }

  /** The random choices of a run: a unit draw per day and edge, and the
      nodes the sampler picks to cure on a day from the infected population. */
  datatype Draws = Draws(uniform: (nat, Edge) -> real, sample: (nat, set<Node>) -> seq<Node>)

  /** Every unit draw lies in [0, 1]. */
  ghost predicate UnitUniform(rnd: Draws) {
    forall d: nat, e: Edge :: 0.0 <= rnd.uniform(d, e) <= 1.0
  }

  /** Every sample is a valid curing sample of its population. */
  ghost predicate ValidSampler(rnd: Draws) {
    forall d: nat, population: set<Node> :: ValidSample(population, rnd.sample(d, population))
  }

  ghost predicate ValidDraws(rnd: Draws) {
    UnitUniform(rnd) && ValidSampler(rnd)
  }

  /** The unit draws of one day. */
  function DayDraws(rnd: Draws, day: nat, edges: set<Edge>): (u: map<Edge, real>)
    ensures u.Keys == edges
  {
    map e | e in edges :: rnd.uniform(day, e)
  }

  /** One day: reweight from the previous statuses, infect with the new
      weights, cure a sample of the infected nodes. */
  ghost function Cycle(st: State, edges: set<Edge>, day: nat, rnd: Draws): (r: State)
    requires StateOk(st, edges)
    ensures StateOk(r, edges) && r.status.Keys == st.status.Keys
  {
    var w := Reweight(st.status, edges, DayDraws(rnd, day, edges));
    var infected := InfectionStep(st.status, edges, w, Cutoff);
    var cured := Assign(infected, rnd.sample(day, RetrieveNodes(infected, Infected)), Cured);
    State(cured, w)
  }

  /** The states at the end of days day, day + 1, ..., stop - 1. */
  ghost function Trace(st: State, edges: set<Edge>, rnd: Draws, day: nat, stop: int): (r: seq<State>)
    requires StateOk(st, edges)
    ensures |r| == if stop > day then stop - day else 0
    decreases stop - day
  {
    if day >= stop then [] else
      var next := Cycle(st, edges, day, rnd);
      [next] + Trace(next, edges, rnd, day + 1, stop)
  }

  /** Unfolds the first day of a trace. */
  lemma TraceUnfold(st: State, edges: set<Edge>, rnd: Draws, day: nat, stop: int)
    requires StateOk(st, edges) && day < stop
    ensures Trace(st, edges, rnd, day, stop) == [Cycle(st, edges, day, rnd)] + Trace(Cycle(st, edges, day, rnd), edges, rnd, day + 1, stop)
  {
  }

  /** metrics holds the metrics of each state of trace, in order. */
  ghost predicate Measured(trace: seq<State>, edges: set<Edge>, metrics: seq<Metrics>) {
    && |trace| == |metrics|
    && forall k :: 0 <= k < |trace| ==>
      StateOk(trace[k], edges) && metrics[k] == MetricsOf(trace[k].status, edges, trace[k].weight)
  }

  lemma MeasuredAppend(trace: seq<State>, edges: set<Edge>, metrics: seq<Metrics>, st: State, m: Metrics)
    requires Measured(trace, edges, metrics) && StateOk(st, edges)
    requires m == MetricsOf(st.status, edges, st.weight)
    ensures Measured(trace + [st], edges, metrics + [m])
  {
    forall k | 0 <= k < |trace| + 1
      ensures StateOk((trace + [st])[k], edges)
      ensures (metrics + [m])[k] == MetricsOf((trace + [st])[k].status, edges, (trace + [st])[k].weight)
    {
      if k < |trace| {
        assert (trace + [st])[k] == trace[k] && (metrics + [m])[k] == metrics[k];
      }
    }
  }

  /** The state a trace ends in. */
  ghost function Final(st: State, trace: seq<State>): State {
    if trace == [] then st else trace[|trace| - 1]
  }

  /** Every node of `before` is still a node in `after`, at the same or a
      later status. */
  ghost predicate Forward(before: map<Node, Status>, after: map<Node, Status>) {
    forall n :: n in before ==> n in after && Rank(before[n]) <= Rank(after[n])
  }

  /** Every edge's weight lies in the interval of its source's status in
      `before`, and in [0, 1]. */
  ghost predicate FreshWeights(before: map<Node, Status>, edges: set<Edge>, weight: map<Edge, real>) {
    forall e :: e in edges ==>
      && e.0 in before && e in weight
      && InRange(weight[e], before[e.0])
      && 0.0 <= weight[e] <= 1.0
  }

  /** Statuses only move forward within a day; cured is absorbing. */
  lemma CycleForward(st: State, edges: set<Edge>, day: nat, rnd: Draws)
    requires StateOk(st, edges)
    ensures Forward(st.status, Cycle(st, edges, day, rnd).status)
    ensures forall n :: n in st.status && st.status[n] == Cured ==> Cycle(st, edges, day, rnd).status[n] == Cured
  {
    var w := Reweight(st.status, edges, DayDraws(rnd, day, edges));
    InfectionOnlyAdvancesSusceptible(st.status, edges, w, Cutoff);
  }

  /** Under valid draws, every weight at the end of a day lies in the interval
      of its source's status at the start of that day, and in [0, 1]. */
  lemma CycleWeights(st: State, edges: set<Edge>, day: nat, rnd: Draws)
    requires StateOk(st, edges) && UnitUniform(rnd)
    ensures FreshWeights(st.status, edges, Cycle(st, edges, day, rnd).weight)
  {
    ReweightInRange(st.status, edges, DayDraws(rnd, day, edges));
  }

  lemma ForwardTransitive(a: map<Node, Status>, b: map<Node, Status>, c: map<Node, Status>)
    requires Forward(a, b) && Forward(b, c)
    ensures Forward(a, c)
  {
  }

  /** The k-th state of a trace: the first day's state, or a state of the
      trace that starts from it. */
  lemma TraceAt(st: State, edges: set<Edge>, rnd: Draws, day: nat, stop: int, k: nat)
    requires StateOk(st, edges) && k < |Trace(st, edges, rnd, day, stop)|
    ensures k == 0 ==> Trace(st, edges, rnd, day, stop)[k] == Cycle(st, edges, day, rnd)
    ensures 0 < k ==> Trace(st, edges, rnd, day, stop)[k] == Trace(Cycle(st, edges, day, rnd), edges, rnd, day + 1, stop)[k - 1]
  {
    TraceUnfold(st, edges, rnd, day, stop);
  }

  /** One more day of a run: if `trace` holds the states up to day `day` and
      `before` is the state it ends in, then adding that day's state and
      metrics row keeps the driver's loop invariant. */
  lemma RunStep(start: State, edges: set<Edge>, rnd: Draws, stop: int, day: nat,
                trace: seq<State>, metrics: seq<Metrics>, before: State, m: Metrics)
    requires StateOk(start, edges) && StateOk(before, edges) && day < stop
    requires Trace(start, edges, rnd, 1, stop) == trace + Trace(before, edges, rnd, day, stop)
    requires Measured(trace, edges, metrics)
    requires before == Final(start, trace)
    requires m == MetricsOf(Cycle(before, edges, day, rnd).status, edges, Cycle(before, edges, day, rnd).weight)
    ensures var after := Cycle(before, edges, day, rnd);
      && Trace(start, edges, rnd, 1, stop) == (trace + [after]) + Trace(after, edges, rnd, day + 1, stop)
      && Measured(trace + [after], edges, metrics + [m])
      && after == Final(start, trace + [after])
  {
    var after := Cycle(before, edges, day, rnd);
    TraceUnfold(before, edges, rnd, day, stop);
    AppendAssoc(trace, [after], Trace(after, edges, rnd, day + 1, stop));
    MeasuredAppend(trace, edges, metrics, after, m);
  }

  /** Every state of a trace is well formed over the nodes it started with. */
  lemma {:induction false} TraceStatesOk(st: State, edges: set<Edge>, rnd: Draws, day: nat, stop: int, k: nat)
    requires StateOk(st, edges) && k < |Trace(st, edges, rnd, day, stop)|
    ensures StateOk(Trace(st, edges, rnd, day, stop)[k], edges)
    ensures Trace(st, edges, rnd, day, stop)[k].status.Keys == st.status.Keys
    decreases k
  {
    TraceAt(st, edges, rnd, day, stop, k);
    if 0 < k {
      TraceStatesOk(Cycle(st, edges, day, rnd), edges, rnd, day + 1, stop, k - 1);
    }
  }

  /** Across a whole run, every node's status only moves forward: from the
      initial state to the end of any day, and from each day to the next. */
  lemma {:induction false} TraceForward(st: State, edges: set<Edge>, rnd: Draws, day: nat, stop: int, k: nat)
    requires StateOk(st, edges) && k < |Trace(st, edges, rnd, day, stop)|
    ensures Forward(st.status, Trace(st, edges, rnd, day, stop)[k].status)
    ensures 0 < k ==> Forward(Trace(st, edges, rnd, day, stop)[k - 1].status, Trace(st, edges, rnd, day, stop)[k].status)
    decreases k
  {
    var next := Cycle(st, edges, day, rnd);
    CycleForward(st, edges, day, rnd);
    TraceAt(st, edges, rnd, day, stop, k);
    if 0 < k {
      TraceAt(st, edges, rnd, day, stop, k - 1);
      TraceForward(next, edges, rnd, day + 1, stop, k - 1);
      ForwardTransitive(st.status, next.status, Trace(next, edges, rnd, day + 1, stop)[k - 1].status);
    }
  }

  /** A run ends with every status at or beyond where it started. */
  lemma RunForward(st: State, edges: set<Edge>, rnd: Draws, day: nat, stop: int)
    requires StateOk(st, edges)
    ensures Forward(st.status, Final(st, Trace(st, edges, rnd, day, stop)).status)
  {
    var r := Trace(st, edges, rnd, day, stop);
    if r != [] {
      TraceForward(st, edges, rnd, day, stop, |r| - 1);
      assert Final(st, r) == r[|r| - 1];
    } else {
      assert Final(st, r) == st;
    }
  }

  /** Every row's three counts add up to n. */
  ghost predicate RowsCount(metrics: seq<Metrics>, n: nat) {
    forall k :: 0 <= k < |metrics| ==> metrics[k].susceptible + metrics[k].infected + metrics[k].cured == n
  }

  /** Every metrics row of a measured run counts all nodes. */
  lemma RunCounts(st: State, edges: set<Edge>, rnd: Draws, day: nat, stop: int, metrics: seq<Metrics>)
    requires StateOk(st, edges)
    requires Measured(Trace(st, edges, rnd, day, stop), edges, metrics)
    ensures RowsCount(metrics, |st.status|)
  {
    var r := Trace(st, edges, rnd, day, stop);
    forall k | 0 <= k < |metrics|
      ensures metrics[k].susceptible + metrics[k].infected + metrics[k].cured == |st.status|
    {
      TraceStatesOk(st, edges, rnd, day, stop, k);
      var s := r[k].status;
      assert metrics[k] == MetricsOf(s, edges, r[k].weight);
      assert |s| == |s.Keys| == |st.status.Keys| == |st.status|;
    }
  }

  /** The state before day `day + k` of a trace starting on day `day`. */
  ghost function Before(st: State, r: seq<State>, k: nat): State
    requires k <= |r|
  {
    if k == 0 then st else r[k - 1]
  }

  /** Under valid draws, every day's weights lie in the interval of the
      source's status at the end of the previous day. */
  lemma {:induction false} TraceWeights(st: State, edges: set<Edge>, rnd: Draws, day: nat, stop: int, k: nat)
    requires StateOk(st, edges) && UnitUniform(rnd) && k < |Trace(st, edges, rnd, day, stop)|
    ensures var r := Trace(st, edges, rnd, day, stop);
      FreshWeights(Before(st, r, k).status, edges, r[k].weight)
    decreases k
  {
    var next := Cycle(st, edges, day, rnd);
    TraceAt(st, edges, rnd, day, stop, k);
    if k == 0 {
      CycleWeights(st, edges, day, rnd);
    } else {
      TraceAt(st, edges, rnd, day, stop, k - 1);
      var r, tail := Trace(st, edges, rnd, day, stop), Trace(next, edges, rnd, day + 1, stop);
      assert r[k] == tail[k - 1];
      assert Before(st, r, k) == Before(next, tail, k - 1);
      TraceWeights(next, edges, rnd, day + 1, stop, k - 1);
    }
  }
}
