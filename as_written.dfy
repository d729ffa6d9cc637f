/** The infection step and the metrics row exactly as Airport.py computes
    them, next to the intended definitions in module Epidemic.

    In the infection loop the loop variable j is a node identifier (a
    string), so the node simulate_infection evaluates and overwrites is the
    one-character identifier j[0], not j. Both averages also divide by a
    count that can be zero, which raises and ends the run; here the crash is
    a None result. */
module AsWritten {
  import opened Wrappers
  import opened Sums
  import opened Epidemic

  /** The node simulate_infection looks up for the loop variable j: the identifier
      made of j's first character. */
  function IndexedNode(j: Node): (r: Node)
    requires |j| > 0
    ensures |r| == 1 && r[0] == j[0]
  {
    j[..1]
  }

  /** Some susceptible j makes simulate_infection fail: j is empty (indexing j[0]
      fails) or no edge enters the node j[0] (division by zero; a node j[0]
      that does not exist has no inbound edges either). */
  ghost predicate InfectionCrashes(status: map<Node, Status>, edges: set<Edge>) {
    exists j :: j in status && status[j] == Susceptible && (|j| == 0 || InEdges(edges, IndexedNode(j)) == {})
  }

  /** n is the node j[0] of some susceptible j. */
  ghost predicate Targeted(status: map<Node, Status>, n: Node) {
    exists j :: j in status && status[j] == Susceptible && |j| > 0 && IndexedNode(j) == n
  }

  /** The infection step as written: every targeted node whose mean inbound
      weight is below the cutoff becomes infected, whatever its status. */
  ghost function InfectionAsWritten(status: map<Node, Status>, edges: set<Edge>, weight: map<Edge, real>, cutoff: real)
    : (r: Option<map<Node, Status>>)
    requires edges <= weight.Keys
    ensures r.Some? ==> r.value.Keys == status.Keys
  {
    if InfectionCrashes(status, edges) then None
    else Some(map n | n in status.Keys ::
                if Targeted(status, n) && Infects(edges, weight, cutoff, n) then Infected else status[n])
  }

  /** With one-character identifiers the nodes simulate_infection evaluates are
      exactly the susceptible ones. */
  lemma SingleCharacterTargets(status: map<Node, Status>, n: Node)
    requires forall m :: m in status ==> |m| == 1
    requires n in status
    ensures Targeted(status, n) <==> status[n] == Susceptible
  {
    if status[n] == Susceptible {
      assert IndexedNode(n) == n;
    }
    if Targeted(status, n) {
      var j :| j in status && status[j] == Susceptible && |j| > 0 && IndexedNode(j) == n;
      assert j == IndexedNode(j);
    }
  }

  /** With one-character identifiers j[0] is j itself, and the step as
      written agrees with the intended one whenever it does not crash. */
  lemma SingleCharacterIdsAgree(status: map<Node, Status>, edges: set<Edge>, weight: map<Edge, real>, cutoff: real)
    requires edges <= weight.Keys
    requires forall n :: n in status ==> |n| == 1
    ensures InfectionAsWritten(status, edges, weight, cutoff).Some? ==>
      InfectionAsWritten(status, edges, weight, cutoff).value == InfectionStep(status, edges, weight, cutoff)
  {
    if !InfectionCrashes(status, edges) {
      var written := InfectionAsWritten(status, edges, weight, cutoff).value;
      var intended := InfectionStep(status, edges, weight, cutoff);
      forall n | n in status.Keys ensures written[n] == intended[n] {
        SingleCharacterTargets(status, n);
      }
      assert written == intended;
    }
  }

  /** Nodes "4" (cured) and "45" (susceptible) with the single route
      45 -> 4 of weight 0.05: the step as written evaluates "4" for j = "45"
      and infects the cured node again, which the intended step never does. */
  lemma AsWrittenReinfectsCured()
    ensures var status := map["4" := Cured, "45" := Susceptible];
      var edges := {("45", "4")};
      var weight := map[("45", "4") := 0.05];
      && InfectionAsWritten(status, edges, weight, Cutoff) == Some(status["4" := Infected])
      && InfectionStep(status, edges, weight, Cutoff) == status
  {
    var status := map["4" := Cured, "45" := Susceptible];
    var e := ("45", "4");
    var edges := {e};
    var weight := map[e := 0.05];
    assert InEdges(edges, "4") == {e};
    assert InEdges(edges, "45") == {};
    SumSingleton(weight, e);
    assert |{e}| == 1;
    assert IndexedNode("45") == "4";
    assert !InfectionCrashes(status, edges) by {
      forall j | j in status && status[j] == Susceptible
        ensures |j| > 0 && InEdges(edges, IndexedNode(j)) != {}
      {
        assert j == "45";
      }
    }
    assert Targeted(status, "4");
    assert !Targeted(status, "45") by {
      forall j | j in status && status[j] == Susceptible && |j| > 0
        ensures IndexedNode(j) != "45"
      {
        assert |IndexedNode(j)| == 1;
      }
    }
    var written := InfectionAsWritten(status, edges, weight, Cutoff).value;
    assert written == status["4" := Infected];
    assert InfectionStep(status, edges, weight, Cutoff) == status;
  }

  /** The edge list "A B": node A has no inbound edge, so the step as written
      divides by zero, while the intended step leaves A susceptible. */
  lemma AsWrittenCrashesWithoutInbound()
    ensures var status := map["A" := Susceptible, "B" := Susceptible];
      var edges := {("A", "B")};
      var weight := map[("A", "B") := 0.1];
      && InfectionAsWritten(status, edges, weight, Cutoff) == None
      && InfectionStep(status, edges, weight, Cutoff)["A"] == Susceptible
  {
    var status := map["A" := Susceptible, "B" := Susceptible];
    var edges := {("A", "B")};
    assert IndexedNode("A") == "A";
    assert InEdges(edges, "A") == {};
    assert InfectionCrashes(status, edges);
  }

  /** The metrics row as written: without any edge into an infected node the
      average divides by zero and no row is produced. */
  ghost function MetricsAsWritten(status: map<Node, Status>, edges: set<Edge>, weight: map<Edge, real>): (r: Option<Metrics>)
    requires edges <= weight.Keys
    ensures r.Some? <==> InEdgesOf(edges, RetrieveNodes(status, Infected)) != {}
  {
    var ins := InEdgesOf(edges, RetrieveNodes(status, Infected));
    if ins == {} then None
    else Some(Metrics(Count(status, Susceptible), Count(status, Infected), Count(status, Cured),
                      Some(Sum(ins, weight) / (|ins| as real))))
  }

  /** Where the row as written exists it is the intended row. */
  lemma MetricsAsWrittenAgrees(status: map<Node, Status>, edges: set<Edge>, weight: map<Edge, real>)
    requires edges <= weight.Keys
    ensures MetricsAsWritten(status, edges, weight).Some? ==>
      MetricsAsWritten(status, edges, weight).value == MetricsOf(status, edges, weight)
  {
  }

  /** The edge list "A B" seeded with A: the only infected node has no
      inbound edge, so as written the first metrics row divides by zero,
      while the intended row reports the counts and no average. */
  lemma AsWrittenMetricsCrash()
    ensures var status := map["A" := Infected, "B" := Susceptible];
      var edges := {("A", "B")};
      var weight := map[("A", "B") := 0.5];
      && MetricsAsWritten(status, edges, weight) == None
      && MetricsOf(status, edges, weight) == Metrics(1, 1, 0, None)
  {
    var status := map["A" := Infected, "B" := Susceptible];
    var edges := {("A", "B")};
    assert RetrieveNodes(status, Infected) == {"A"};
    assert RetrieveNodes(status, Susceptible) == {"B"};
    assert RetrieveNodes(status, Cured) == {};
    assert InEdgesOf(edges, {"A"}) == {};
  }
}
