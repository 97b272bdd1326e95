/**
  A two-token graph on which `find_arbitrage` as written returns a route that
  is not closed, although a negative closed route is reachable, and on which
  the corrected scan returns that closed route.
 */
module Findings {
  import opened Wrappers
  import opened Graphs
  import opened Relaxation
  import opened Reconstruction
  import opened BellmanFord

  /** `{"A": {"S": -1}, "S": {"A": -1}}`, with "A" listed first. */
  function Example(): Graph
  {
    [Adjacency("A", [Edge("S", -1)]), Adjacency("S", [Edge("A", -1)])]
  }

  lemma Distinct2()
    ensures "A" != "S"
  {
    assert "A"[0] != "S"[0];
  }

  lemma ExampleNodes()
    ensures WellFormed(Example()) && Closed(Example())
    ensures Nodes(Example()) == {"A", "S"}
  {
    var g := Example();
    Distinct2();
    assert g[0].from == "A" && g[1].from == "S";
  }

  /** The tables after the single pass: A at -1 with predecessor S, S at 0
      with none. */
  function AfterPass(): Tables
  {
    Tables(map["A" := Fin(-1), "S" := Fin(0)], map["A" := Some("S"), "S" := None])
  }

  lemma ExampleInit()
    ensures Init(Example(), "S") == Tables(map["A" := Inf, "S" := Fin(0)], map["A" := None, "S" := None])
  {
    ExampleNodes();
  }

  lemma ExampleFinal()
    ensures Final(Example(), "S") == AfterPass()
  {
    var g := Example();
    ExampleNodes();
    var t0 := Init(g, "S");
    assert g[..2][..1] == g[..1] && g == g[..2] && g[..1][..0] == [];
    ExampleSkip();
    assert RelaxPass(t0, g[..1]) == t0;
    ExampleLower();
  }

  /** A -> S is skipped: A is still at infinity. */
  lemma ExampleSkip()
    ensures RelaxEdges(Init(Example(), "S"), "A", [Edge("S", -1)]) == Init(Example(), "S")
  {
    ExampleInit();
    var es: seq<Edge> := [Edge("S", -1)];
    assert es[..0] == [];
  }

  /** S -> A lowers A to -1. */
  lemma ExampleLower()
    ensures RelaxEdges(Init(Example(), "S"), "S", [Edge("A", -1)]) == AfterPass()
  {
    ExampleInit();
    Distinct2();
    var es: seq<Edge> := [Edge("A", -1)];
    assert es[..0] == [];
  }

  lemma ExampleHit()
    ensures FirstHit(Example(), AfterPass().dist) == Some(Hit(0, 0))
  {
    Distinct2();
    assert FirstEdgeFrom(Example(), AfterPass().dist, 0, 0) == Some(0);
  }

  lemma ExampleOpen()
    ensures ClosedPreds(AfterPass().pred) && Reconstructed(AfterPass().pred, "S") == ["S"]
  {
    Distinct2();
    assert Walk(AfterPass().pred, "S") == ["S"];
    assert ["S"][1..] == [];
    assert Reverse(["S"]) == ["S"];
  }

  /** The single pass (2 nodes, so 1 pass) first skips A -> S, since A is
      still at infinity, then sets A to -1 with predecessor S. The scan then
      finds A -> S improvable (-2 < 0), but S has no predecessor, so the
      reconstruction returns the one-token route ["S"]. */
  lemma AsWrittenOpenRoute()
    ensures WellFormed(Example()) && Closed(Example())
    ensures Arbitrage(Example(), "S") == Some(["S"])
    ensures !ClosedRoute(Example(), ["S"])
    ensures ClosedRoute(Example(), ["S", "A", "S"]) && WalkWeight(Example(), ["S", "A", "S"]) == -2
  {
    ExampleNodes();
    ExampleFinal();
    ExampleHit();
    ExampleOpen();
    ExampleRoute();
  }

  lemma ExampleRoute()
    ensures ClosedRoute(Example(), ["S", "A", "S"]) && WalkWeight(Example(), ["S", "A", "S"]) == -2
  {
    Distinct2();
    var g, p := Example(), ["S", "A", "S"];
    assert EdgeW(g, "S", "A") == Some(-1) && EdgeW(g, "A", "S") == Some(-1);
    assert p[..2] == ["S", "A"] && p[..2][..1] == ["S"];
  }

  /** With the found edge A -> S relaxed first, S's predecessor is A and A's
      is S, so the reconstruction returns the closed route S -> A -> S. */
  lemma CorrectedClosedRoute()
    ensures WellFormed(Example()) && Closed(Example())
    ensures ArbitrageCorrected(Example(), "S") == Some(["S", "A", "S"])
  {
    ExampleNodes();
    ExampleFinal();
    ExampleHit();
    ExampleStep();
    ExampleClosed();
  }

  /** Relaxing A -> S after the pass makes A the predecessor of S. */
  lemma ExampleStep()
    ensures HitTarget(Example(), Hit(0, 0)) == "S"
    ensures Example()[0].from == "A" && Example()[0].out[0] == Edge("S", -1)
    ensures Step(AfterPass(), "A", Edge("S", -1)).pred == map["A" := Some("S"), "S" := Some("A")]
  {
    Distinct2();
  }

  lemma ExampleClosed()
    ensures var pred := map["A" := Some("S"), "S" := Some("A")];
      ClosedPreds(pred) && Reconstructed(pred, "S") == ["S", "A", "S"]
  {
    ExampleWalk();
    var c := ["S", "A", "S"];
    assert IndexOf(c, "S") == 0;
    assert c[0..] == c;
    var r := Reverse(c);
    assert r == c by {
      assert r[0] == c[2] && r[1] == c[1] && r[2] == c[0];
    }
  }

  lemma ExampleWalk()
    ensures var pred := map["A" := Some("S"), "S" := Some("A")];
      ClosedPreds(pred) && Walk(pred, "S") == ["S", "A"] && pred["A"] == Some("S")
  {
    Distinct2();
    var pred := map["A" := Some("S"), "S" := Some("A")];
    assert Chase(pred, ["S", "A"]) == ["S", "A"];
    assert ["S"] + ["A"] == ["S", "A"];
  }
}
