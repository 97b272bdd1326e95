/**
  Steps 1 and 2 of `find_arbitrage` (src/bots/BellmanFord.py lines 24-35):
  the distance and predecessor tables and the `len(graph) - 1` relaxation
  passes, as functions of the graph and the start token. The method that runs
  the passes (BellmanFord.RelaxAll) is proved equal to `Final`; the lemmas here
  are about these functions.
 */
module Relaxation {
  import opened Wrappers
  import opened Graphs

  /** A distance as the source stores it: `float('inf')` or an accumulated weight. */
  datatype Dist = Inf | Fin(n: int)

  /** `d + w` on floats, where `inf + w` stays `inf`. */
  function Plus(d: Dist, w: int): Dist
  {
    if d.Inf? then Inf else Fin(d.n + w)
  }

  /** `a < b` on floats. */
  predicate Less(a: Dist, b: Dist)
  {
    a.Fin? && (b.Inf? || a.n < b.n)
  }

  /** `a <= b` on floats. */
  predicate AtMost(a: Dist, b: Dist)
  {
    b.Inf? || (a.Fin? && a.n <= b.n)
  }

  /** The two dictionaries `distance` and `predecessor`. */
  datatype Tables = Tables(dist: map<Token, Dist>, pred: map<Token, Option<Token>>)

  function StartDist(start: Token, x: Token): Dist
  {
    if x == start then Fin(0) else Inf
  }

  /** Lines 25-27: every node at infinity with no predecessor, then the start at 0
      (added as a key even when it is not a node). */
  function Init(g: Graph, start: Token): Tables
  {
    Tables((map x | x in Nodes(g) :: Inf)[start := Fin(0)], map x | x in Nodes(g) :: None)
  }

  /** The test `distance[u] + weight < distance[v]` of lines 33 and 40. */
  predicate Improvable(dist: map<Token, Dist>, u: Token, e: Edge)
  {
    u in dist && e.to in dist && Less(Plus(dist[u], e.weight), dist[e.to])
  }

  /** Lines 33-35 for one edge u -> e.to. */
  function Step(t: Tables, u: Token, e: Edge): Tables
  {
    if Improvable(t.dist, u, e) then
      Tables(t.dist[e.to := Plus(t.dist[u], e.weight)], t.pred[e.to := Some(u)])
    else t
  }

  /** Line 32: every out-edge of u, in order. */
  function RelaxEdges(t: Tables, u: Token, es: seq<Edge>): Tables
    decreases |es|
  {
    if es == [] then t else Step(RelaxEdges(t, u, es[..|es| - 1]), u, es[|es| - 1])
  }

  /** Line 31: one full pass over the nodes, in order. */
  function RelaxPass(t: Tables, es: seq<Adjacency>): Tables
    decreases |es|
  {
    if es == [] then t
    else RelaxEdges(RelaxPass(t, es[..|es| - 1]), es[|es| - 1].from, es[|es| - 1].out)
  }

  /** Line 30: k full passes. */
  function RelaxPasses(t: Tables, g: Graph, k: nat): Tables
  {
    if k == 0 then t else RelaxPass(RelaxPasses(t, g, k - 1), g)
  }

  /** `range(len(graph) - 1)` has this many elements. */
  function PassCount(g: Graph): nat
  {
    if |g| == 0 then 0 else |g| - 1
  }

  /** The tables after step 2. */
  function Final(g: Graph, start: Token): Tables
  {
    RelaxPasses(Init(g, start), g, PassCount(g))
  }

  /** Some walk from start to x weighs exactly n. */
  ghost predicate Achieved(g: Graph, start: Token, x: Token, n: int)
  {
    exists p :: IsWalk(g, p) && p[0] == start && p[|p| - 1] == x && WalkWeight(g, p) == n
  }

  /** x -> y is an edge and y's distance is at least x's plus its weight. */
  ghost predicate PredEdge(g: Graph, t: Tables, x: Token, y: Token)
  {
    && x in t.dist && y in t.dist && EdgeW(g, x, y).Some?
    && AtMost(Plus(t.dist[x], EdgeW(g, x, y).value), t.dist[y])
  }

  /** The keys of both dictionaries: the nodes, and the start in `distance`. */
  ghost predicate KeysOk(g: Graph, start: Token, t: Tables)
  {
    t.dist.Keys == Nodes(g) + {start} && t.pred.Keys == Nodes(g)
  }

  /** Each recorded predecessor x of y is a node with an edge x -> y, and
      y's distance is at least x's plus that edge's weight. */
  ghost predicate PredsSound(g: Graph, t: Tables)
  {
    forall y :: y in t.pred && t.pred[y].Some? ==> t.pred[y].value in t.pred && PredEdge(g, t, t.pred[y].value, y)
  }

  /** A node without a predecessor still has its initial distance. */
  ghost predicate Untouched(start: Token, t: Tables)
  {
    forall y :: y in t.pred && t.pred[y].None? ==> y in t.dist && t.dist[y] == StartDist(start, y)
  }

  /** A finite distance is the weight of a walk from the start: a token is at a
      finite distance only if it is reachable from the start. */
  ghost predicate AllAchieved(g: Graph, start: Token, t: Tables)
  {
    forall x :: x in t.dist && t.dist[x].Fin? ==> Achieved(g, start, x, t.dist[x].n)
  }

  /** What holds of the tables throughout the relaxation passes. */
  ghost predicate Inv(g: Graph, start: Token, t: Tables)
  {
    KeysOk(g, start, t) && PredsSound(g, t) && Untouched(start, t) && AllAchieved(g, start, t)
  }

  /** Every key of t.dist is a key of r.dist with a distance no higher there. */
  ghost predicate Below(r: Tables, t: Tables)
  {
    forall x :: x in t.dist ==> x in r.dist && AtMost(r.dist[x], t.dist[x])
  }

  /** u's out-edges es are edges of g that the lookup finds with their own weights. */
  predicate EdgesOf(g: Graph, u: Token, es: seq<Edge>)
  {
    u in Nodes(g) && forall k :: 0 <= k < |es| ==> es[k].to in Nodes(g) && EdgeW(g, u, es[k].to) == Some(es[k].weight)
  }

  predicate EntriesOf(g: Graph, es: seq<Adjacency>)
  {
    forall i :: 0 <= i < |es| ==> EdgesOf(g, es[i].from, es[i].out)
  }

  lemma GraphEntries(g: Graph)
    requires WellFormed(g) && Closed(g)
    ensures EntriesOf(g, g)
  {
    forall i, k | 0 <= i < |g| && 0 <= k < |g[i].out|
      ensures EdgeW(g, g[i].from, g[i].out[k].to) == Some(g[i].out[k].weight)
    {
      EdgeWAt(g, i, k);
    }
  }

  /** On entry to the passes every node is at infinity without a predecessor,
      except the start, which is at 0. */
  lemma InitInv(g: Graph, start: Token)
    ensures Inv(g, start, Init(g, start))
    ensures forall x :: x in Nodes(g) ==>
      Init(g, start).pred[x] == None && Init(g, start).dist[x] == StartDist(start, x)
  {
    var t := Init(g, start);
    assert IsWalk(g, [start]) && WalkWeight(g, [start]) == 0;
    assert Achieved(g, start, start, 0);
  }

  /** One relaxation of an edge of g keeps the invariant and never raises a
      distance; when it fires it sets `distance[v]` and `predecessor[v]` together. */
  lemma StepInv(g: Graph, start: Token, t: Tables, u: Token, e: Edge)
    requires Inv(g, start, t) && u in Nodes(g) && e.to in Nodes(g)
    requires EdgeW(g, u, e.to) == Some(e.weight)
    ensures Inv(g, start, Step(t, u, e))
    ensures Improvable(t.dist, u, e) ==>
      Step(t, u, e).dist[e.to] == Plus(t.dist[u], e.weight) && Step(t, u, e).pred[e.to] == Some(u)
  {
    if Improvable(t.dist, u, e) {
      StepKeys(g, start, t, u, e);
      StepSound(g, start, t, u, e);
      StepUntouched(g, start, t, u, e);
      StepAchieved(g, start, t, u, e);
    }
  }

  lemma StepKeys(g: Graph, start: Token, t: Tables, u: Token, e: Edge)
    requires KeysOk(g, start, t) && e.to in Nodes(g) && Improvable(t.dist, u, e)
    ensures KeysOk(g, start, Step(t, u, e))
  {
  }

  lemma StepUntouched(g: Graph, start: Token, t: Tables, u: Token, e: Edge)
    requires Untouched(start, t) && Improvable(t.dist, u, e)
    ensures Untouched(start, Step(t, u, e))
  {
  }

  lemma StepSound(g: Graph, start: Token, t: Tables, u: Token, e: Edge)
    requires KeysOk(g, start, t) && PredsSound(g, t) && u in Nodes(g) && e.to in Nodes(g)
    requires EdgeW(g, u, e.to) == Some(e.weight) && Improvable(t.dist, u, e)
    ensures PredsSound(g, Step(t, u, e))
  {
    var r, v := Step(t, u, e), e.to;
    forall y | y in r.pred && r.pred[y].Some?
      ensures r.pred[y].value in r.pred && PredEdge(g, r, r.pred[y].value, y)
    {
      if y != v {
        assert PredEdge(g, t, t.pred[y].value, y);
      }
    }
  }

  lemma StepAchieved(g: Graph, start: Token, t: Tables, u: Token, e: Edge)
    requires AllAchieved(g, start, t) && EdgeW(g, u, e.to) == Some(e.weight) && Improvable(t.dist, u, e)
    ensures AllAchieved(g, start, Step(t, u, e))
  {
    var r, v := Step(t, u, e), e.to;
    var p :| IsWalk(g, p) && p[0] == start && p[|p| - 1] == u && WalkWeight(g, p) == t.dist[u].n;
    WalkAppend(g, p, v);
    var q := p + [v];
    assert q[0] == start && q[|q| - 1] == v;
    assert Achieved(g, start, v, r.dist[v].n);
  }

  lemma {:induction false} EdgesInv(g: Graph, start: Token, t: Tables, u: Token, es: seq<Edge>)
    requires Inv(g, start, t) && EdgesOf(g, u, es)
    ensures Inv(g, start, RelaxEdges(t, u, es))
  {
    if es != [] {
      var init := es[..|es| - 1];
      assert EdgesOf(g, u, init) by {
        forall k | 0 <= k < |init| ensures init[k] == es[k] { }
      }
      EdgesInv(g, start, t, u, init);
      StepInv(g, start, RelaxEdges(t, u, init), u, es[|es| - 1]);
    }
  }

  lemma {:induction false} PassInv(g: Graph, start: Token, t: Tables, es: seq<Adjacency>)
    requires Inv(g, start, t) && EntriesOf(g, es)
    ensures Inv(g, start, RelaxPass(t, es))
  {
    if es != [] {
      var init := es[..|es| - 1];
      assert EntriesOf(g, init) by {
        forall i | 0 <= i < |init| ensures init[i] == es[i] { }
      }
      PassInv(g, start, t, init);
      EdgesInv(g, start, RelaxPass(t, init), es[|es| - 1].from, es[|es| - 1].out);
    }
  }

  /** Every pass keeps the invariant. */
  lemma {:induction false} PassesInv(g: Graph, start: Token, t: Tables, k: nat)
    requires WellFormed(g) && Closed(g) && Inv(g, start, t)
    ensures Inv(g, start, RelaxPasses(t, g, k))
  {
    if k > 0 {
      PassesInv(g, start, t, k - 1);
      NextPassInv(g, start, RelaxPasses(t, g, k - 1));
    }
  }

  lemma NextPassInv(g: Graph, start: Token, t: Tables)
    requires WellFormed(g) && Closed(g) && Inv(g, start, t)
    ensures Inv(g, start, RelaxPass(t, g))
  {
    GraphEntries(g);
    PassInv(g, start, t, g);
  }

  /** The invariant holds of the tables step 2 leaves behind. */
  lemma FinalInv(g: Graph, start: Token)
    requires WellFormed(g) && Closed(g)
    ensures Inv(g, start, Final(g, start))
  {
    InitInv(g, start);
    PassesInv(g, start, Init(g, start), PassCount(g));
  }

  /** Relaxing the edges of a token at infinity, or of one without a
      distance, changes nothing. */
  lemma {:induction false} EdgesIdle(t: Tables, u: Token, es: seq<Edge>)
    requires u in t.dist ==> t.dist[u].Inf?
    ensures RelaxEdges(t, u, es) == t
  {
    if es != [] {
      EdgesIdle(t, u, es[..|es| - 1]);
    }
  }

  lemma {:induction false} PassIdle(t: Tables, es: seq<Adjacency>)
    requires forall i :: 0 <= i < |es| && es[i].from in t.dist ==> t.dist[es[i].from].Inf?
    ensures RelaxPass(t, es) == t
  {
    if es != [] {
      var init := es[..|es| - 1];
      assert forall i :: 0 <= i < |init| ==> init[i] == es[i];
      PassIdle(t, init);
      EdgesIdle(t, es[|es| - 1].from, es[|es| - 1].out);
    }
  }

  lemma {:induction false} PassesIdle(t: Tables, g: Graph, k: nat)
    requires forall i :: 0 <= i < |g| && g[i].from in t.dist ==> t.dist[g[i].from].Inf?
    ensures RelaxPasses(t, g, k) == t
  {
    if k > 0 {
      PassesIdle(t, g, k - 1);
      PassIdle(t, g);
    }
  }

  /** When the start is not a node, every node starts at infinity and no pass
      changes anything: the tables step 2 leaves are the initial ones. */
  lemma UnreachedStart(g: Graph, start: Token)
    requires start !in Nodes(g)
    ensures Final(g, start) == Init(g, start)
    ensures forall x :: x in Nodes(g) ==> x in Final(g, start).dist && Final(g, start).dist[x] == Inf
  {
    var t := Init(g, start);
    forall i | 0 <= i < |g| && g[i].from in t.dist ensures t.dist[g[i].from].Inf? {
      assert g[i].from in Nodes(g);
    }
    PassesIdle(t, g, PassCount(g));
  }

  lemma BelowTrans(r: Tables, s: Tables, t: Tables)
    requires Below(r, s) && Below(s, t)
    ensures Below(r, t)
  {
    forall x | x in t.dist ensures x in r.dist && AtMost(r.dist[x], t.dist[x]) {
      assert x in s.dist;
    }
  }

  /** Relaxing one edge never raises a distance and removes no key. */
  lemma StepBelow(t: Tables, u: Token, e: Edge)
    ensures Below(Step(t, u, e), t)
  {
  }

  lemma {:induction false} EdgesBelow(t: Tables, u: Token, es: seq<Edge>)
    ensures Below(RelaxEdges(t, u, es), t)
  {
    if es != [] {
      var s := RelaxEdges(t, u, es[..|es| - 1]);
      EdgesBelow(t, u, es[..|es| - 1]);
      StepBelow(s, u, es[|es| - 1]);
      BelowTrans(Step(s, u, es[|es| - 1]), s, t);
    }
  }

  lemma {:induction false} PassBelow(t: Tables, es: seq<Adjacency>)
    ensures Below(RelaxPass(t, es), t)
  {
    if es != [] {
      var s := RelaxPass(t, es[..|es| - 1]);
      var a := es[|es| - 1];
      PassBelow(t, es[..|es| - 1]);
      EdgesBelow(s, a.from, a.out);
      BelowTrans(RelaxEdges(s, a.from, a.out), s, t);
    }
  }

  /** No distance ever increases: neither across one pass nor from the
      initial tables. */
  lemma {:induction false} PassesBelow(g: Graph, start: Token, k: nat)
    ensures Below(RelaxPasses(Init(g, start), g, k), Init(g, start))
    ensures k > 0 ==> Below(RelaxPasses(Init(g, start), g, k), RelaxPasses(Init(g, start), g, k - 1))
  {
    if k > 0 {
      var t := RelaxPasses(Init(g, start), g, k - 1);
      PassesBelow(g, start, k - 1);
      PassBelow(t, g);
      BelowTrans(RelaxPass(t, g), t, Init(g, start));
    }
  }

  /** After relaxing the edges es of u, the distance of each target is at
      most u's distance before plus the edge weight. */
  lemma {:induction false} EdgesLower(t: Tables, u: Token, es: seq<Edge>, k: int)
    requires 0 <= k < |es| && u in t.dist && es[k].to in t.dist
    ensures es[k].to in RelaxEdges(t, u, es).dist
    ensures AtMost(RelaxEdges(t, u, es).dist[es[k].to], Plus(t.dist[u], es[k].weight))
  {
    var init := es[..|es| - 1];
    var s := RelaxEdges(t, u, init);
    EdgesBelow(t, u, init);
    StepBelow(s, u, es[|es| - 1]);
    if k < |es| - 1 {
      assert init[k] == es[k];
      EdgesLower(t, u, init, k);
    }
  }

  /** After one pass, every edge of the pass has been relaxed at least once
      from a distance no higher than the one the pass started with. */
  lemma {:induction false} PassLowers(t: Tables, es: seq<Adjacency>, i: int, k: int)
    requires 0 <= i < |es| && 0 <= k < |es[i].out|
    requires es[i].from in t.dist && es[i].out[k].to in t.dist
    ensures es[i].out[k].to in RelaxPass(t, es).dist
    ensures AtMost(RelaxPass(t, es).dist[es[i].out[k].to], Plus(t.dist[es[i].from], es[i].out[k].weight))
  {
    var init := es[..|es| - 1];
    var s := RelaxPass(t, init);
    PassBelow(t, init);
    var a := es[|es| - 1];
    EdgesBelow(s, a.from, a.out);
    if i == |es| - 1 {
      EdgesLower(s, a.from, a.out, k);
    } else {
      assert init[i] == es[i];
      PassLowers(t, init, i, k);
    }
  }

  /** If p is a walk from start to a token of the tables, that token's
      distance is at most p's weight. */
  ghost predicate RelaxedAlong(g: Graph, start: Token, t: Tables, p: seq<Token>)
  {
    IsWalk(g, p) && p[0] == start && p[|p| - 1] in t.dist ==>
      AtMost(t.dist[p[|p| - 1]], Fin(WalkWeight(g, p)))
  }

  /** Every walk from start with at most len tokens weighs at least the
      distance the tables hold for its last token. */
  ghost predicate WalksRelaxed(g: Graph, start: Token, t: Tables, len: nat)
  {
    forall p {:trigger RelaxedAlong(g, start, t, p)} :: |p| <= len ==> RelaxedAlong(g, start, t, p)
  }

  /** The path-relaxation property: after k passes, the distance of x is at
      most the weight of every walk from start to x with at most k edges. */
  lemma PassesRelax(g: Graph, start: Token, k: nat)
    requires WellFormed(g) && Closed(g)
    ensures WalksRelaxed(g, start, RelaxPasses(Init(g, start), g, k), k + 1)
  {
    InitInv(g, start);
    InitRelaxed(g, start);
    PassesRelaxFrom(g, start, Init(g, start), k);
  }

  lemma {:induction false} PassesRelaxFrom(g: Graph, start: Token, t: Tables, k: nat)
    requires WellFormed(g) && Closed(g) && Inv(g, start, t) && WalksRelaxed(g, start, t, 1)
    ensures WalksRelaxed(g, start, RelaxPasses(t, g, k), k + 1)
  {
    if k > 0 {
      PassesRelaxFrom(g, start, t, k - 1);
      PassesInv(g, start, t, k - 1);
      PassRelax(g, start, RelaxPasses(t, g, k - 1), k);
    }
  }

  lemma InitRelaxed(g: Graph, start: Token)
    ensures WalksRelaxed(g, start, Init(g, start), 1)
  {
    var t := Init(g, start);
    forall p | |p| <= 1 ensures RelaxedAlong(g, start, t, p) {
      if IsWalk(g, p) && p[0] == start {
        assert p == [start];
      }
    }
  }

  /** One more pass covers walks one edge longer. */
  lemma PassRelax(g: Graph, start: Token, t: Tables, len: nat)
    requires WellFormed(g) && Closed(g) && Inv(g, start, t) && len >= 1
    requires WalksRelaxed(g, start, t, len)
    ensures WalksRelaxed(g, start, RelaxPass(t, g), len + 1)
  {
    var r := RelaxPass(t, g);
    PassBelow(t, g);
    NextPassInv(g, start, t);
    forall p | |p| <= len + 1 ensures RelaxedAlong(g, start, r, p) {
      if IsWalk(g, p) && p[0] == start && p[|p| - 1] in t.dist {
        WalkRelaxed(g, start, t, len, p);
      }
    }
  }

  lemma WalkRelaxed(g: Graph, start: Token, t: Tables, len: nat, p: seq<Token>)
    requires Closed(g) && Nodes(g) <= t.dist.Keys && len >= 1
    requires WalksRelaxed(g, start, t, len) && Below(RelaxPass(t, g), t)
    requires IsWalk(g, p) && p[0] == start && |p| <= len + 1 && p[|p| - 1] in t.dist
    ensures AtMost(RelaxPass(t, g).dist[p[|p| - 1]], Fin(WalkWeight(g, p)))
  {
    if |p| == len + 1 {
      var q := p[..|p| - 1];
      assert IsWalk(g, q) by {
        forall j | 0 <= j < |q| ensures q[j] == p[j] { }
      }
      var y, x := p[|p| - 2], p[|p| - 1];
      assert q[|q| - 1] == y && q[0] == start;
      var i, kk := EdgeWFound(g, y, x);
      EdgeWNodes(g, y, x);
      PassLowers(t, g, i, kk);
      assert RelaxedAlong(g, start, t, q);
    } else {
      assert RelaxedAlong(g, start, t, p);
    }
  }

  /** Following predecessors back along c (c[j] is the predecessor of
      c[j + 1]) walks edges of g, and the distance at c's end is at least the
      distance at its beginning plus the walk's weight. */
  lemma {:induction false} PredChain(g: Graph, start: Token, t: Tables, c: seq<Token>)
    requires KeysOk(g, start, t) && PredsSound(g, t)
    requires |c| >= 1 && c[0] in t.pred
    requires BackLinked(t.pred, c)
    ensures IsWalk(g, c) && c[0] in t.dist && c[|c| - 1] in t.dist
    ensures AtMost(Plus(t.dist[c[0]], WalkWeight(g, c)), t.dist[c[|c| - 1]])
  {
    if |c| > 1 {
      var h := c[..|c| - 1];
      assert BackLinked(t.pred, h) by {
        forall j | 0 <= j < |h| ensures h[j] == c[j] { }
      }
      PredChain(g, start, t, h);
      var x, y := c[|c| - 2], c[|c| - 1];
      assert PredEdge(g, t, x, y);
      assert h[|h| - 1] == x;
      WalkAppend(g, h, y);
      assert h + [y] == c;
    }
  }
}
