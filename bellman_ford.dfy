/**
  `BellmanFordArbitrage.find_arbitrage` (src/bots/BellmanFord.py lines
  18-45): run the relaxation passes, scan every edge once more for one that
  can still be improved, and reconstruct a route from the predecessors of
  the first such edge's target.
 */
module BellmanFord {
  import opened Wrappers
  import opened Graphs
  import opened Relaxation
  import opened Reconstruction

  /** A position in the graph: entry `node` of the outer dictionary and entry
      `edge` of that node's inner dictionary. */
  datatype Hit = Hit(node: nat, edge: nat)

  /** Line 40 holds for no edge of g. */
  predicate NoImprovable(g: Graph, dist: map<Token, Dist>)
  {
    forall i, k :: 0 <= i < |g| && 0 <= k < |g[i].out| ==> !Improvable(dist, g[i].from, g[i].out[k])
  }

  /** The first edge of entry i, at position k or later, that line 40 accepts. */
  function FirstEdgeFrom(g: Graph, dist: map<Token, Dist>, i: nat, k: nat): (r: Option<nat>)
    requires i < |g| && k <= |g[i].out|
    decreases |g[i].out| - k
    ensures r.Some? ==> k <= r.value < |g[i].out| && Improvable(dist, g[i].from, g[i].out[r.value])
    ensures forall l :: k <= l < (if r.Some? then r.value else |g[i].out|) ==>
      !Improvable(dist, g[i].from, g[i].out[l])
  {
    if k == |g[i].out| then None
    else if Improvable(dist, g[i].from, g[i].out[k]) then Some(k)
    else FirstEdgeFrom(g, dist, i, k + 1)
  }

  /** The first edge, in the scan order of lines 38-39, of the entries from
      i onwards that line 40 accepts. */
  function FirstHitFrom(g: Graph, dist: map<Token, Dist>, i: nat): (r: Option<Hit>)
    requires i <= |g|
    decreases |g| - i
    ensures r.Some? ==>
      && i <= r.value.node < |g| && r.value.edge < |g[r.value.node].out|
      && Improvable(dist, g[r.value.node].from, g[r.value.node].out[r.value.edge])
      && (forall l :: 0 <= l < r.value.edge ==>
            !Improvable(dist, g[r.value.node].from, g[r.value.node].out[l]))
      && (forall n, l :: i <= n < r.value.node && 0 <= l < |g[n].out| ==>
            !Improvable(dist, g[n].from, g[n].out[l]))
    ensures r.None? ==>
      forall n, l :: i <= n < |g| && 0 <= l < |g[n].out| ==> !Improvable(dist, g[n].from, g[n].out[l])
  {
    if i == |g| then None
    else match FirstEdgeFrom(g, dist, i, 0)
      case Some(k) => Some(Hit(i, k))
      case None => FirstHitFrom(g, dist, i + 1)
  }

  /** The edge at which line 42 returns, if any. */
  function FirstHit(g: Graph, dist: map<Token, Dist>): Option<Hit>
  {
    FirstHitFrom(g, dist, 0)
  }

  /** The first hit is exactly the improvable edge that no improvable edge
      precedes in scan order. */
  lemma FirstHitExact(g: Graph, dist: map<Token, Dist>, h: Hit)
    requires h.node < |g| && h.edge < |g[h.node].out|
    requires Improvable(dist, g[h.node].from, g[h.node].out[h.edge])
    requires forall l :: 0 <= l < h.edge ==> !Improvable(dist, g[h.node].from, g[h.node].out[l])
    requires forall n, l :: 0 <= n < h.node && 0 <= l < |g[n].out| ==> !Improvable(dist, g[n].from, g[n].out[l])
    ensures FirstHit(g, dist) == Some(h)
  {
  }

  /** The target v of the edge found. */
  function HitTarget(g: Graph, h: Hit): Token
    requires h.node < |g| && h.edge < |g[h.node].out|
  {
    g[h.node].out[h.edge].to
  }

  /** What `find_arbitrage(start)` returns, as written. Every edge ends at a
      node or at the start, which lines 25-27 also make a key of `distance`. */
  function Arbitrage(g: Graph, start: Token): Option<seq<Token>>
    requires WellFormed(g) && KeysCover(g, Nodes(g) + {start})
  {
    var t := Final(g, start);
    match FirstHit(g, t.dist)
    case None => None
    case Some(h) =>
      HitClosed(g, start, h);
      FinalInv(g, start);
      Some(Reconstructed(t.pred, HitTarget(g, h)))
  }

  /** Lines 24-35: the tables and the relaxation passes. */
  method RelaxAll(g: Graph, start: Token) returns (distance: map<Token, Dist>, predecessor: Preds)
    requires KeysCover(g, Nodes(g) + {start})
    ensures Tables(distance, predecessor) == Final(g, start)
    ensures distance.Keys == Nodes(g) + {start}
  {
    distance := map x | x in Nodes(g) :: Inf;
    predecessor := map x | x in Nodes(g) :: None;
    distance := distance[start := Fin(0)];
    var i := 0;
    while i < |g| - 1
      invariant i <= PassCount(g)
      invariant Tables(distance, predecessor) == RelaxPasses(Init(g, start), g, i)
      invariant distance.Keys == Nodes(g) + {start}
    {
      distance, predecessor := OnePass(g, distance, predecessor);
      i := i + 1;
    }
  }

  /** Line 31: one pass over every entry of the graph, in order. */
  method OnePass(g: Graph, distance0: map<Token, Dist>, predecessor0: Preds)
    returns (distance: map<Token, Dist>, predecessor: Preds)
    requires KeysCover(g, distance0.Keys)
    ensures Tables(distance, predecessor) == RelaxPass(Tables(distance0, predecessor0), g)
    ensures distance.Keys == distance0.Keys
  {
    distance, predecessor := distance0, predecessor0;
    var j := 0;
    while j < |g|
      invariant j <= |g|
      invariant Tables(distance, predecessor) == RelaxPass(Tables(distance0, predecessor0), g[..j])
      invariant distance.Keys == distance0.Keys
    {
      distance, predecessor := RelaxNode(g, j, distance, predecessor);
      assert g[..j + 1][..j] == g[..j];
      j := j + 1;
    }
    assert g[..|g|] == g;
  }

  /** Lines 32-35: relax every out-edge of entry j, in order. */
  method RelaxNode(g: Graph, j: nat, distance0: map<Token, Dist>, predecessor0: Preds)
    returns (distance: map<Token, Dist>, predecessor: Preds)
    requires KeysCover(g, distance0.Keys) && j < |g|
    ensures Tables(distance, predecessor) == RelaxEdges(Tables(distance0, predecessor0), g[j].from, g[j].out)
    ensures distance.Keys == distance0.Keys
  {
    distance, predecessor := distance0, predecessor0;
    var u, es := g[j].from, g[j].out;
    var k := 0;
    while k < |es|
      invariant k <= |es|
      invariant Tables(distance, predecessor) == RelaxEdges(Tables(distance0, predecessor0), u, es[..k])
      invariant distance.Keys == distance0.Keys
    {
      var v, weight := es[k].to, es[k].weight;
      assert u in Nodes(g) && v in distance.Keys;
      if Less(Plus(distance[u], weight), distance[v]) {
        distance := distance[v := Plus(distance[u], weight)];
        predecessor := predecessor[v := Some(u)];
      }
      assert es[..k + 1][..k] == es[..k];
      k := k + 1;
    }
    assert es[..|es|] == es;
  }

  /** Lines 38-40: the first edge that can still be improved. */
  method FindHit(g: Graph, dist: map<Token, Dist>) returns (hit: Option<Hit>)
    requires KeysCover(g, dist.Keys)
    ensures hit == FirstHit(g, dist)
  {
    var i := 0;
    while i < |g|
      invariant i <= |g| && FirstHitFrom(g, dist, i) == FirstHit(g, dist)
    {
      var u, es := g[i].from, g[i].out;
      var k := 0;
      while k < |es|
        invariant k <= |es| && FirstEdgeFrom(g, dist, i, k) == FirstEdgeFrom(g, dist, i, 0)
      {
        var v, weight := es[k].to, es[k].weight;
        assert u in Nodes(g) && v in dist.Keys;
        if Less(Plus(dist[u], weight), dist[v]) {
          return Some(Hit(i, k));
        }
        k := k + 1;
      }
      i := i + 1;
    }
    return None;
  }

  /** `find_arbitrage(start)` as written: `None` exactly when the scan finds
      no improvable edge. */
  method FindArbitrage(g: Graph, start: Token) returns (result: Option<seq<Token>>)
    requires WellFormed(g) && KeysCover(g, Nodes(g) + {start})
    ensures result == Arbitrage(g, start)
    ensures result.None? <==> NoImprovable(g, Final(g, start).dist)
  {
    var distance, predecessor := RelaxAll(g, start);
    var hit := FindHit(g, distance);
    if hit.None? {
      return None;
    }
    var h := hit.value;
    HitClosed(g, start, h);
    FinalInv(g, start);
    var cycle := ReconstructCycle(predecessor, g[h.node].out[h.edge].to);
    assert Improvable(distance, g[h.node].from, g[h.node].out[h.edge]);
    return Some(cycle);
  }

  /** The scan of lines 38-43 with one change: before reconstructing, the
      improvable edge u -> v it found is relaxed as line 35 would, so that
      `predecessor[v] = u`. */
  function ArbitrageCorrected(g: Graph, start: Token): Option<seq<Token>>
    requires WellFormed(g) && KeysCover(g, Nodes(g) + {start})
  {
    var t := Final(g, start);
    match FirstHit(g, t.dist)
    case None => None
    case Some(h) =>
      HitClosed(g, start, h);
      HitStepInv(g, start, h);
      Some(Reconstructed(Step(t, g[h.node].from, g[h.node].out[h.edge]).pred, HitTarget(g, h)))
  }

  /** `find_arbitrage` with the found edge relaxed before `reconstruct_cycle`. */
  method FindArbitrageCorrected(g: Graph, start: Token) returns (result: Option<seq<Token>>)
    requires WellFormed(g) && KeysCover(g, Nodes(g) + {start})
    ensures result == ArbitrageCorrected(g, start)
    ensures result.None? <==> NoImprovable(g, Final(g, start).dist)
  {
    var distance, predecessor := RelaxAll(g, start);
    var hit := FindHit(g, distance);
    if hit.None? {
      return None;
    }
    var h := hit.value;
    HitClosed(g, start, h);
    FinalInv(g, start);
    var u, v, weight := g[h.node].from, g[h.node].out[h.edge].to, g[h.node].out[h.edge].weight;
    HitStepInv(g, start, h);
    distance := distance[v := Plus(distance[u], weight)];
    predecessor := predecessor[v := Some(u)];
    var cycle := ReconstructCycle(predecessor, v);
    assert Improvable(Final(g, start).dist, u, g[h.node].out[h.edge]);
    return Some(cycle);
  }

  /** The edge the scan finds is an edge of g whose relaxation keeps the
      invariant; its target is a key of both tables. */
  lemma HitStepInv(g: Graph, start: Token, h: Hit)
    requires WellFormed(g) && Closed(g) && FirstHit(g, Final(g, start).dist) == Some(h)
    ensures var e := g[h.node].out[h.edge];
      && Improvable(Final(g, start).dist, g[h.node].from, e)
      && EdgeW(g, g[h.node].from, e.to) == Some(e.weight)
      && Inv(g, start, Step(Final(g, start), g[h.node].from, e))
      && e.to in Nodes(g) && e.to in Final(g, start).pred
  {
    var e := g[h.node].out[h.edge];
    FinalInv(g, start);
    EdgeWAt(g, h.node, h.edge);
    StepInv(g, start, Final(g, start), g[h.node].from, e);
  }

  /** A start token that is not a node leaves every node at infinity, so
      the scan finds no improvable edge. */
  lemma NoHitUnreached(g: Graph, start: Token)
    requires start !in Nodes(g)
    ensures FirstHit(g, Final(g, start).dist) == None
  {
    UnreachedStart(g, start);
  }

  /** A start token that is not a node is accepted, also when edges lead to
      it, and the result is `None`. */
  lemma MissingStart(g: Graph, start: Token)
    requires WellFormed(g) && KeysCover(g, Nodes(g) + {start}) && start !in Nodes(g)
    ensures Arbitrage(g, start) == None && ArbitrageCorrected(g, start) == None
  {
    NoHitUnreached(g, start);
  }

  /** `{"A": {"S": 1}}` with start "S": the start is a quote but not a base.
      The edge into it reads `distance["S"]`, which lines 25-27 created, and
      the result is `None`. */
  lemma MissingStartQuoted()
    ensures var g := [Adjacency("A", [Edge("S", 1)])];
      && !Closed(g) && KeysCover(g, Nodes(g) + {"S"}) && "S" !in Nodes(g)
      && WellFormed(g) && Arbitrage(g, "S") == None
  {
    var g := [Adjacency("A", [Edge("S", 1)])];
    assert "A"[0] != "S"[0];
    assert Nodes(g) == {"A"} by {
      assert g[0].from == "A";
    }
    MissingStart(g, "S");
  }

  /** `{"S": {"S": -1, "X": 5}}` with start "S": a single node, so no pass
      runs, and the scan returns at S -> S before it reads `distance["X"]`.
      The code returns here, but the graph lies outside `KeysCover`. */
  lemma OneNodeUncovered()
    ensures var g := [Adjacency("S", [Edge("S", -1), Edge("X", 5)])];
      && WellFormed(g) && PassCount(g) == 0 && !KeysCover(g, Nodes(g) + {"S"})
  {
    var g := [Adjacency("S", [Edge("S", -1), Edge("X", 5)])];
    assert "S"[0] != "X"[0];
    assert Nodes(g) == {"S"} by {
      assert g[0].from == "S";
    }
    assert g[0].out[1].to == "X";
  }

  /** The scan finds an edge only when the start is a node, and then every
      edge ends at a node. */
  lemma HitClosed(g: Graph, start: Token, h: Hit)
    requires KeysCover(g, Nodes(g) + {start}) && FirstHit(g, Final(g, start).dist) == Some(h)
    ensures start in Nodes(g) && Closed(g)
  {
    if start !in Nodes(g) {
      NoHitUnreached(g, start);
      assert false;
    }
  }

  /** With no improvable edge left, distances are settled along every walk:
      the distance at its end is at most the distance at its beginning plus
      its weight. */
  lemma {:induction false} Settled(g: Graph, start: Token, t: Tables, q: seq<Token>)
    requires Closed(g) && KeysOk(g, start, t) && NoImprovable(g, t.dist)
    requires IsWalk(g, q) && q[0] in t.dist
    ensures q[|q| - 1] in t.dist
    ensures AtMost(t.dist[q[|q| - 1]], Plus(t.dist[q[0]], WalkWeight(g, q)))
  {
    if |q| > 1 {
      var h := q[..|q| - 1];
      assert IsWalk(g, h) by {
        forall j | 0 <= j < |h| ensures h[j] == q[j] { }
      }
      Settled(g, start, t, h);
      var y, x := q[|q| - 2], q[|q| - 1];
      assert h[|h| - 1] == y;
      var i, k := EdgeWFound(g, y, x);
      EdgeWNodes(g, y, x);
      assert !Improvable(t.dist, g[i].from, g[i].out[k]);
    }
  }

  /** Detection: when a closed route of negative weight is reachable from the
      start, the scan of lines 38-42 finds an improvable edge. */
  lemma NegativeRouteFound(g: Graph, start: Token, p: seq<Token>, c: seq<Token>)
    requires WellFormed(g) && Closed(g)
    requires IsWalk(g, p) && p[0] == start && ClosedRoute(g, c) && p[|p| - 1] == c[0]
    requires WalkWeight(g, c) < 0
    ensures Arbitrage(g, start).Some? && ArbitrageCorrected(g, start).Some?
  {
    var t := Final(g, start);
    FinalInv(g, start);
    if FirstHit(g, t.dist).None? {
      assert NoImprovable(g, t.dist);
      PassesBelow(g, start, PassCount(g));
      assert Init(g, start).dist[start] == Fin(0);
      assert t.dist[start].Fin?;
      Settled(g, start, t, p);
      Settled(g, start, t, c);
    }
  }

  /** Without a reachable closed route of negative weight, no edge of g can
      still be improved after the passes: a walk from the start to u of
      weight `distance[u]`, extended by u -> v and shortened to one that
      repeats no token, bounds `distance[v]` from above. */
  lemma EdgeSettled(g: Graph, start: Token, i: int, k: int)
    requires WellFormed(g) && Closed(g) && NoNegativeRoute(g, start)
    requires 0 <= i < |g| && 0 <= k < |g[i].out|
    ensures !Improvable(Final(g, start).dist, g[i].from, g[i].out[k])
  {
    var t := Final(g, start);
    FinalInv(g, start);
    var u, e := g[i].from, g[i].out[k];
    EdgeWAt(g, i, k);
    assert u in Nodes(g);
    if t.dist[u].Fin? {
      assert Achieved(g, start, u, t.dist[u].n);
      var p :| IsWalk(g, p) && p[0] == start && p[|p| - 1] == u && WalkWeight(g, p) == t.dist[u].n;
      WalkAppend(g, p, e.to);
      var q := ShortLighter(g, start, p + [e.to]);
      SimpleWalkBound(g, start, q);
    }
  }

  /** Detection, converse: when no closed route reachable from the start
      weighs less than zero, the scan finds nothing and the result is `None`. */
  lemma NoNegativeRouteNone(g: Graph, start: Token)
    requires WellFormed(g) && Closed(g) && NoNegativeRoute(g, start)
    ensures NoImprovable(g, Final(g, start).dist)
    ensures Arbitrage(g, start) == None && ArbitrageCorrected(g, start) == None
  {
    forall i, k | 0 <= i < |g| && 0 <= k < |g[i].out|
      ensures !Improvable(Final(g, start).dist, g[i].from, g[i].out[k])
    {
      EdgeSettled(g, start, i, k);
    }
  }

  /** Detection, both ways: the result is `None` exactly when no closed
      route of negative weight can be reached from the start. */
  lemma DetectsExactly(g: Graph, start: Token)
    requires WellFormed(g) && Closed(g)
    ensures Arbitrage(g, start).None? <==> NoNegativeRoute(g, start)
    ensures ArbitrageCorrected(g, start).None? <==> NoNegativeRoute(g, start)
  {
    if NoNegativeRoute(g, start) {
      NoNegativeRouteNone(g, start);
    } else {
      var p, c :| ReachedRoute(g, start, p, c) && WalkWeight(g, c) < 0;
      NegativeRouteFound(g, start, p, c);
    }
  }

  /** After the passes, a node has a finite distance exactly when some walk
      from the start reaches it. */
  lemma FiniteIffReachable(g: Graph, start: Token, x: Token)
    requires WellFormed(g) && Closed(g) && x in Nodes(g)
    ensures x in Final(g, start).dist
    ensures Final(g, start).dist[x].Fin? <==>
      exists p :: IsWalk(g, p) && p[0] == start && p[|p| - 1] == x
  {
    FinalInv(g, start);
    if p :| IsWalk(g, p) && p[0] == start && p[|p| - 1] == x {
      ReachableFinite(g, start, p);
    }
  }

  lemma ReachableFinite(g: Graph, start: Token, p: seq<Token>)
    requires WellFormed(g) && Closed(g) && IsWalk(g, p) && p[0] == start && p[|p| - 1] in Nodes(g)
    ensures p[|p| - 1] in Final(g, start).dist && Final(g, start).dist[p[|p| - 1]].Fin?
  {
    var q := ShortWalk(g, p);
    SimpleWalkBound(g, start, q);
  }

  /** The passes leave at each node a distance no higher than the weight of
      any walk from the start that repeats no token. */
  lemma SimpleWalkBound(g: Graph, start: Token, q: seq<Token>)
    requires WellFormed(g) && Closed(g) && IsWalk(g, q) && q[0] == start && Distinct(q)
    requires q[|q| - 1] in Nodes(g)
    ensures q[|q| - 1] in Final(g, start).dist
    ensures AtMost(Final(g, start).dist[q[|q| - 1]], Fin(WalkWeight(g, q)))
  {
    var t := Final(g, start);
    FinalInv(g, start);
    if |q| >= 2 {
      WalkNodes(g, q);
      DistinctWithin(q, Nodes(g));
    }
    NodesBound(g);
    PassesRelax(g, start, PassCount(g));
    assert RelaxedAlong(g, start, t, q);
  }

  /** Under the invariant, the route reconstructed from a token v whose
      walk stops at a visited token is a closed route of g repeating no
      token before its end. */
  lemma RouteClosed(g: Graph, start: Token, t: Tables, v: Token)
    requires KeysOk(g, start, t) && PredsSound(g, t) && v in t.pred
    requires Truthy(Stop(t.pred, v))
    ensures ClosedRoute(g, Reconstructed(t.pred, v)) && Distinct(Reconstructed(t.pred, v)[1..])
  {
    ReconstructShape(t.pred, v);
    var r := Reconstructed(t.pred, v);
    PredChain(g, start, t, r);
  }

  /** Under the invariant, the route reconstructed from a token v at a
      finite distance whose walk stops at `None` is an open walk from the
      start to v, repeating no token and no heavier than v's distance. */
  lemma RouteOpen(g: Graph, start: Token, t: Tables, v: Token)
    requires KeysOk(g, start, t) && PredsSound(g, t) && Untouched(start, t)
    requires "" !in Nodes(g) && v in t.pred && t.dist[v].Fin?
    requires !Truthy(Stop(t.pred, v))
    ensures var r := Reconstructed(t.pred, v);
      r[0] == start && r[|r| - 1] == v && Distinct(r) && IsWalk(g, r) && WalkWeight(g, r) <= t.dist[v].n
  {
    ReconstructShape(t.pred, v);
    var w := Walk(t.pred, v);
    var r := Reconstructed(t.pred, v);
    assert w[|w| - 1] in t.pred;
    assert r[0] in t.pred;
    OpenChain(g, start, t, r);
  }

  /** A route reconstructed from predecessors that stops at a token without
      one is a walk from the start no heavier than the distance at its end. */
  lemma OpenChain(g: Graph, start: Token, t: Tables, r: seq<Token>)
    requires KeysOk(g, start, t) && PredsSound(g, t) && Untouched(start, t)
    requires |r| >= 1 && r[0] in t.pred && t.pred[r[0]] == None
    requires BackLinked(t.pred, r) && r[|r| - 1] in t.dist && t.dist[r[|r| - 1]].Fin?
    ensures IsWalk(g, r) && r[0] == start && WalkWeight(g, r) <= t.dist[r[|r| - 1]].n
  {
    PredChain(g, start, t, r);
  }

  /** As written, a result is a walk of g that is either a closed route
      repeating no token before its end, or an open walk from the start. */
  lemma ResultShape(g: Graph, start: Token)
    requires WellFormed(g) && Closed(g) && "" !in Nodes(g)
    ensures Arbitrage(g, start).Some? ==>
      var r := Arbitrage(g, start).value;
      && IsWalk(g, r)
      && ((ClosedRoute(g, r) && Distinct(r[1..])) || (r[0] == start && Distinct(r)))
  {
    var t := Final(g, start);
    FinalInv(g, start);
    if FirstHit(g, t.dist).Some? {
      var h := FirstHit(g, t.dist).value;
      HitStepInv(g, start, h);
      HitFinite(g, start, h);
      RouteFrom(g, start, t, HitTarget(g, h));
    }
  }

  /** Either case of the reconstruction from a token v at a finite distance. */
  lemma RouteFrom(g: Graph, start: Token, t: Tables, v: Token)
    requires KeysOk(g, start, t) && PredsSound(g, t) && Untouched(start, t)
    requires "" !in Nodes(g) && v in t.pred && t.dist[v].Fin?
    ensures ClosedPreds(t.pred)
    ensures var r := Reconstructed(t.pred, v);
      IsWalk(g, r) && ((ClosedRoute(g, r) && Distinct(r[1..])) || (r[0] == start && Distinct(r)))
  {
    if Truthy(Stop(t.pred, v)) {
      RouteClosed(g, start, t, v);
    } else {
      RouteOpen(g, start, t, v);
    }
  }

  /** The target of the edge the scan finds is at a finite distance: its
      source is reachable, and so is it. */
  lemma HitFinite(g: Graph, start: Token, h: Hit)
    requires WellFormed(g) && Closed(g) && FirstHit(g, Final(g, start).dist) == Some(h)
    ensures HitTarget(g, h) in Final(g, start).dist && Final(g, start).dist[HitTarget(g, h)].Fin?
  {
    var t := Final(g, start);
    FinalInv(g, start);
    HitStepInv(g, start, h);
    var u, e := g[h.node].from, g[h.node].out[h.edge];
    var p :| IsWalk(g, p) && p[0] == start && p[|p| - 1] == u && WalkWeight(g, p) == t.dist[u].n;
    WalkAppend(g, p, e.to);
    ReachableFinite(g, start, p + [e.to]);
  }

  /** Corrected: every result is a closed route A -> ... -> A of g that
      repeats no token before returning. The open case of RouteOpen cannot
      arise: once u -> v is relaxed, an open route from the start to v would
      be a walk without repetitions lighter than the distance the passes
      left at v. */
  lemma CorrectedCloses(g: Graph, start: Token)
    requires WellFormed(g) && Closed(g) && "" !in Nodes(g)
    ensures ArbitrageCorrected(g, start).Some? ==>
      var r := ArbitrageCorrected(g, start).value;
      ClosedRoute(g, r) && Distinct(r[1..])
  {
    var t := Final(g, start);
    FinalInv(g, start);
    if FirstHit(g, t.dist).Some? {
      var h := FirstHit(g, t.dist).value;
      HitStepInv(g, start, h);
      var u, e := g[h.node].from, g[h.node].out[h.edge];
      var t' := Step(t, u, e);
      if Truthy(Stop(t'.pred, e.to)) {
        RouteClosed(g, start, t', e.to);
      } else {
        RouteOpen(g, start, t', e.to);
        CannotReopen(g, start, t, u, e, Reconstructed(t'.pred, e.to));
      }
    }
  }

  /** An open walk from the start to v that repeats no token weighs at least
      the distance the passes left at v, so it is heavier than the improved
      distance of v. */
  lemma CannotReopen(g: Graph, start: Token, t: Tables, u: Token, e: Edge, r: seq<Token>)
    requires WellFormed(g) && Closed(g) && t == Final(g, start) && Improvable(t.dist, u, e)
    requires IsWalk(g, r) && r[0] == start && r[|r| - 1] == e.to && Distinct(r) && e.to in Nodes(g)
    ensures WalkWeight(g, r) > Step(t, u, e).dist[e.to].n
  {
    if |r| >= 2 {
      WalkNodes(g, r);
    }
    SimpleWalkBound(g, start, r);
  }
}
