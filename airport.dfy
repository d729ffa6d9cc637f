/** The simulation as Airport.py runs it: one mutable graph whose statuses
    and weights the steps overwrite in place, node by node and edge by
    edge. Each step method is proved to leave the graph in the state the
    corresponding function of module Epidemic describes; the constructor
    and AddRoute state the new fields directly. */
module Airport {
  import opened Wrappers
  import opened Sums
  import opened Epidemic

  /** The counts find_graph_properties reports. */
  datatype GraphProperties = GraphProperties(nodeCount: nat, edgeCount: nat)

  /** Adds up the weights of a set of edges one edge at a time, counting
      them, as the inner loops of the infection step and of the average
      computation do. */
  method SumWeights(es: set<Edge>, weight: map<Edge, real>) returns (total: real, count: nat)
    requires es <= weight.Keys
    ensures total == Sum(es, weight)
    ensures count == |es|
  {
    total, count := 0.0, 0;
    var rest := es;
    while rest != {}
      invariant rest <= es
      invariant total + Sum(rest, weight) == Sum(es, weight)
      invariant count + |rest| == |es|
      decreases |rest|
    {
      var e :| e in rest;
      SumRemove(rest, weight, e);
      total := total + weight[e];
      count := count + 1;
      rest := rest - {e};
    }
  }

  class Graph {
    var nodes: set<Node>
    var status: map<Node, Status>
    var edges: set<Edge>
    var weight: map<Edge, real>

    /** Every node has a status, every edge joins two nodes and has a weight
        in [0, 1]. */
    ghost predicate Valid()
      reads this
    {
      && status.Keys == nodes
      && WellFormed(status, edges, weight)
      && WeightsBounded(weight)
    }

    /** The graph as the loader builds it: every node susceptible, every
        weight 0.1. */
    ghost predicate Loaded()
      reads this
    {
      && (forall n :: n in status ==> status[n] == InitialStatus)
      && (forall e :: e in weight ==> weight[e] == InitialWeight)
    }

    /** An empty directed graph. */
    constructor ()
      ensures Valid() && Loaded()
      ensures nodes == {} && edges == {}
    {
      nodes, status := {}, map[];
      edges, weight := {}, map[];
    }

    /** Records one "from to" line of the edge list: a node seen for the first
        time is created susceptible, a known node keeps its status, and the
        edge is (re)set to weight 0.1. */
    method AddRoute(src: Node, dst: Node)
      requires Valid()
      modifies this
      ensures Valid()
      ensures nodes == old(nodes) + {src, dst}
      ensures edges == old(edges) + {(src, dst)}
      ensures forall n :: n in nodes ==> status[n] == if n in old(nodes) then old(status)[n] else InitialStatus
      ensures weight == old(weight)[(src, dst) := InitialWeight]
      ensures old(Loaded()) ==> Loaded()
    {
      var s := status;
      if src !in s {
        s := s[src := InitialStatus];
      }
      if dst !in s {
        s := s[dst := InitialStatus];
      }
      nodes, status := nodes + {src, dst}, s;
      edges, weight := edges + {(src, dst)}, weight[(src, dst) := InitialWeight];
    }

    /** Node and edge counts; a directed graph has at most one edge per
        ordered pair of nodes. */
    function Properties(): (p: GraphProperties)
      reads this
      requires Valid()
      ensures p.nodeCount == |nodes| && p.edgeCount == |edges|
      ensures p.edgeCount <= p.nodeCount * p.nodeCount
    {
      PairSetBound(nodes, edges);
      GraphProperties(|nodes|, |edges|)
    }

    /** Gives every out-edge of every node a fresh weight from the interval of
        that node's status; u holds the unit draw of each edge. */
    method RecalEdgeWeights(u: map<Edge, real>)
      requires Valid() && UnitDraws(edges, u)
      modifies this
      ensures Valid()
      ensures nodes == old(nodes) && status == old(status) && edges == old(edges)
      ensures weight == Reweight(status, edges, u)
      ensures forall e :: e in edges ==> InRange(weight[e], status[e.0])
    {
      ghost var target := Reweight(status, edges, u);
      var rest := nodes;
      while rest != {}
        invariant rest <= nodes
        invariant nodes == old(nodes) && status == old(status) && edges == old(edges)
        invariant ReweightedExcept(weight, old(weight), target, edges, rest)
        decreases |rest|
      {
        var n :| n in rest;
        var outs := OutEdges(edges, n);
        var todo := outs;
        ReweightNodeStart(weight, old(weight), target, edges, rest, n);
        while todo != {}
          invariant todo <= outs
          invariant nodes == old(nodes) && status == old(status) && edges == old(edges)
          invariant ReweightingNode(weight, old(weight), target, edges, rest, n, todo)
          decreases |todo|
        {
          var e :| e in todo;
          ReweightNodeEdge(weight, old(weight), target, edges, rest, n, todo, e);
          weight := weight[e := Uniform(Range(status[n]), u[e])];
          todo := todo - {e};
        }
        ReweightNodeDone(weight, old(weight), target, edges, rest, n);
        rest := rest - {n};
      }
      assert weight == target;
      ReweightInRange(status, edges, u);
    }

    /** Visits every node that is susceptible at the start of the step and
        infects it when the mean weight of its inbound edges is below the
        cutoff; a node without inbound edges is left as it is. */
    method SimulateInfection(cutoff: real)
      requires Valid()
      modifies this
      ensures Valid()
      ensures nodes == old(nodes) && edges == old(edges) && weight == old(weight)
      ensures status == InfectionStep(old(status), edges, weight, cutoff)
    {
      ghost var target := InfectionStep(status, edges, weight, cutoff);
      var susceptible := RetrieveNodes(status, Susceptible);
      var rest := susceptible;
      while rest != {}
        invariant rest <= susceptible
        invariant nodes == old(nodes) && edges == old(edges) && weight == old(weight)
        invariant Valid()
        invariant InfectedExcept(status, old(status), target, rest)
        decreases |rest|
      {
        var j :| j in rest;
        ghost var before := status;
        EvaluateNode(j, cutoff);
        InfectionVisit(before, old(status), edges, weight, cutoff, rest, j);
        rest := rest - {j};
      }
      assert status == target;
    }

    /** The body of the infection loop for one node j: average its inbound
        weights and infect it when the cutoff exceeds that average. */
    method EvaluateNode(j: Node, cutoff: real)
      requires Valid() && j in nodes
      modifies this
      ensures Valid()
      ensures nodes == old(nodes) && edges == old(edges) && weight == old(weight)
      ensures status == if Infects(edges, weight, cutoff, j) then old(status)[j := Infected] else old(status)
    {
      var total, count := SumWeights(InEdges(edges, j), weight);
      if count > 0 && cutoff > total / (count as real) {
        status := status[j := Infected];
      }
    }

    /** Gives each chosen node the status `value`. */
    method Mark(chosen: seq<Node>, value: Status)
      requires Valid()
      requires forall i :: 0 <= i < |chosen| ==> chosen[i] in nodes
      modifies this
      ensures Valid()
      ensures nodes == old(nodes) && edges == old(edges) && weight == old(weight)
      ensures status == Assign(old(status), chosen, value)
    {
      for i := 0 to |chosen|
        invariant nodes == old(nodes) && edges == old(edges) && weight == old(weight)
        invariant status == Assign(old(status), chosen[..i], value)
      {
        assert chosen[..i + 1] == chosen[..i] + [chosen[i]];
        status := status[chosen[i] := value];
      }
      assert chosen[..|chosen|] == chosen;
    }

    /** Cures the sampled infected nodes: at most a third of them, each
        moving from infected to cured, every other node unchanged. */
    method SimulateCuring(chosen: seq<Node>)
      requires Valid() && ValidSample(RetrieveNodes(status, Infected), chosen)
      modifies this
      ensures Valid()
      ensures nodes == old(nodes) && edges == old(edges) && weight == old(weight)
      ensures status == Assign(old(status), chosen, Cured)
      ensures Changed(old(status), status) == Elements(chosen)
      ensures forall n :: n in Changed(old(status), status) ==> old(status)[n] == Infected && status[n] == Cured
      ensures |Changed(old(status), status)| <= Count(old(status), Infected) / 3
    {
      Mark(chosen, Cured);
      CureBound(old(status), chosen);
    }

    /** The mean weight of all edges into infected nodes, accumulated node by
        node; none when there is no such edge. */
    method FindAvgEdgeWeights() returns (avg: Option<real>)
      requires Valid()
      ensures avg == AvgInfectedInbound(status, edges, weight)
    {
      var infected := RetrieveNodes(status, Infected);
      var totalWeight, counter := 0.0, 0;
      var rest := infected;
      ghost var done := {};
      while rest != {}
        invariant done !! rest && done + rest == infected
        invariant totalWeight == Sum(InEdgesOf(edges, done), weight)
        invariant counter == |InEdgesOf(edges, done)|
        decreases |rest|
      {
        var n :| n in rest;
        var t, c := SumWeights(InEdges(edges, n), weight);
        AccumulateNode(edges, weight, done, n);
        totalWeight, counter := totalWeight + t, counter + c;
        done, rest := done + {n}, rest - {n};
      }
      avg := if counter == 0 then None else Some(totalWeight / (counter as real));
    }

    /** The metrics row of the current state. Reads the graph only. */
    method ComputeMetrics() returns (m: Metrics)
      requires Valid()
      ensures m == MetricsOf(status, edges, weight)
      ensures m.susceptible + m.infected + m.cured == Properties().nodeCount
    {
      var infected := |RetrieveNodes(status, Infected)|;
      var susceptible := |RetrieveNodes(status, Susceptible)|;
      var cured := |RetrieveNodes(status, Cured)|;
      var avg := FindAvgEdgeWeights();
      m := Metrics(susceptible, infected, cured, avg);
    }

    /** Infects `nodeCount` distinct chosen nodes before the first day; a
        count that is negative or larger than the graph is refused and
        changes nothing. */
    method InfectNodes(nodeCount: int, chosen: seq<Node>) returns (ok: bool)
      requires Valid()
      requires 0 <= nodeCount <= |nodes| ==> ValidSeed(nodes, nodeCount, chosen)
      modifies this
      ensures Valid()
      ensures ok == (0 <= nodeCount <= |nodes|)
      ensures nodes == old(nodes) && edges == old(edges) && weight == old(weight)
      ensures status == if ok then Assign(old(status), chosen, Infected) else old(status)
      ensures ok && old(Loaded()) ==> Count(status, Infected) == nodeCount
    {
      ghost var wasLoaded := Loaded();
      ok := 0 <= nodeCount <= |nodes|;
      if ok {
        Mark(chosen, Infected);
        if wasLoaded {
          SeedFromLoaded(old(status), nodeCount, chosen);
        }
      }
    }

    /** One pass of the driver's loop: reweight, infect with cutoff 0.10,
        cure a sample of the infected nodes, then measure. */
    method SimulateDay(day: nat, rnd: Draws) returns (m: Metrics)
      requires Valid() && ValidDraws(rnd)
      modifies this
      ensures Valid()
      ensures nodes == old(nodes) && edges == old(edges)
      ensures State(status, weight) == Cycle(State(old(status), old(weight)), edges, day, rnd)
      ensures m == MetricsOf(status, edges, weight)
    {
      RecalEdgeWeights(DayDraws(rnd, day, edges));
      SimulateInfection(Cutoff);
      SimulateCuring(rnd.sample(day, RetrieveNodes(status, Infected)));
      m := ComputeMetrics();
    }

    /** Runs days 1 .. noOfDays - 1 and returns one metrics row per day. */
    method RunSimulationCycle(noOfDays: int, rnd: Draws) returns (metrics: seq<Metrics>)
      requires Valid() && ValidDraws(rnd)
      modifies this
      ensures Valid()
      ensures nodes == old(nodes) && edges == old(edges)
      ensures |metrics| == if noOfDays > 1 then noOfDays - 1 else 0
      ensures var trace := Trace(State(old(status), old(weight)), edges, rnd, 1, noOfDays);
        && Measured(trace, edges, metrics)
        && State(status, weight) == Final(State(old(status), old(weight)), trace)
      ensures Forward(old(status), status)
      ensures RowsCount(metrics, |nodes|)
    {
      ghost var start := State(status, weight);
      ghost var trace: seq<State> := [];
      metrics := [];
      var day := 1;
      while day < noOfDays
        invariant Valid()
        invariant 1 <= day
        invariant nodes == old(nodes) && edges == old(edges)
        invariant Trace(start, edges, rnd, 1, noOfDays) == trace + Trace(State(status, weight), edges, rnd, day, noOfDays)
        invariant Measured(trace, edges, metrics)
        invariant State(status, weight) == Final(start, trace)
        decreases noOfDays - day
      {
        ghost var before := State(status, weight);
        var m := SimulateDay(day, rnd);
        ghost var after := State(status, weight);
        RunStep(start, edges, rnd, noOfDays, day, trace, metrics, before, m);
        metrics := metrics + [m];
        trace := trace + [after];
        day := day + 1;
      }
      RunForward(start, edges, rnd, 1, noOfDays);
      RunCounts(start, edges, rnd, 1, noOfDays, metrics);
    }
  }
}
