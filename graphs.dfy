/**
  The weighted graph of src/bots/BellmanFord.py: a dictionary from each token
  to a dictionary from neighbouring tokens to edge weights. Python dictionaries
  iterate in insertion order, so both levels are sequences of entries whose
  keys are distinct.
 */
module Graphs {
  import opened Wrappers

  type Token = string

  /** One entry `v: weight` of the inner dictionary `graph[u]`. */
  datatype Edge = Edge(to: Token, weight: int)

  /** One entry `u: {v: weight, ...}` of the outer dictionary. */
  datatype Adjacency = Adjacency(from: Token, out: seq<Edge>)

  type Graph = seq<Adjacency>

  function Nodes(g: Graph): set<Token>
  {
    set i | 0 <= i < |g| :: g[i].from
  }

  predicate Distinct(s: seq<Token>)
  {
    forall i, j :: 0 <= i < j < |s| ==> s[i] != s[j]
  }

  predicate DistinctTargets(es: seq<Edge>)
  {
    forall k, l :: 0 <= k < l < |es| ==> es[k].to != es[l].to
  }

  /** Both levels have distinct keys, as every Python dictionary does. */
  predicate WellFormed(g: Graph)
  {
    && (forall i, j :: 0 <= i < j < |g| ==> g[i].from != g[j].from)
    && (forall i :: 0 <= i < |g| ==> DistinctTargets(g[i].out))
  }

  /** Every edge ends at a node, so `distance[v]` never raises KeyError. */
  predicate Closed(g: Graph)
  {
    forall i, k :: 0 <= i < |g| && 0 <= k < |g[i].out| ==> g[i].out[k].to in Nodes(g)
  }

  /** The key set `keys` holds every node and the target of every edge, so
      looking up either end of an edge never raises KeyError. */
  predicate KeysCover(g: Graph, keys: set<Token>)
  {
    && Nodes(g) <= keys
    && forall i, k :: 0 <= i < |g| && 0 <= k < |g[i].out| ==> g[i].out[k].to in keys
  }

  /** `graph[x]`, or no edges when x is not a node. */
  function Out(g: Graph, x: Token): seq<Edge>
  {
    if g == [] then [] else if g[0].from == x then g[0].out else Out(g[1..], x)
  }

  function Lookup(es: seq<Edge>, y: Token): Option<int>
  {
    if es == [] then None else if es[0].to == y then Some(es[0].weight) else Lookup(es[1..], y)
  }

  /** The weight `graph[x][y]`, if that edge exists. */
  function EdgeW(g: Graph, x: Token, y: Token): Option<int>
  {
    Lookup(Out(g, x), y)
  }

  /** A walk: consecutive tokens are joined by edges of g. */
  predicate IsWalk(g: Graph, p: seq<Token>)
  {
    |p| >= 1 && forall j :: 0 <= j < |p| - 1 ==> EdgeW(g, p[j], p[j + 1]).Some?
  }

  function WalkWeight(g: Graph, p: seq<Token>): int
    requires IsWalk(g, p)
    decreases |p|
  {
    if |p| == 1 then 0
    else WalkWeight(g, p[..|p| - 1]) + EdgeW(g, p[|p| - 2], p[|p| - 1]).value
  }

  /** c[j - 1] is the recorded predecessor of c[j], all along c. */
  predicate BackLinked(pred: map<Token, Option<Token>>, c: seq<Token>)
  {
    forall j :: 1 <= j < |c| ==> c[j] in pred && pred[c[j]] == Some(c[j - 1])
  }

  /** A closed route A -> ... -> A along edges of g. */
  predicate ClosedRoute(g: Graph, c: seq<Token>)
  {
    |c| >= 2 && c[0] == c[|c| - 1] && IsWalk(g, c)
  }

  lemma {:induction false} OutAt(g: Graph, i: int)
    requires WellFormed(g) && 0 <= i < |g|
    ensures Out(g, g[i].from) == g[i].out
  {
    if i > 0 {
      assert g[0].from != g[i].from;
      assert g[1..][i - 1] == g[i];
      OutAt(g[1..], i - 1);
    }
  }

  lemma {:induction false} LookupAt(es: seq<Edge>, k: int)
    requires DistinctTargets(es) && 0 <= k < |es|
    ensures Lookup(es, es[k].to) == Some(es[k].weight)
  {
    if k > 0 {
      assert es[0].to != es[k].to;
      assert es[1..][k - 1] == es[k];
      LookupAt(es[1..], k - 1);
    }
  }

  /** In a well-formed graph the lookup finds each listed edge's own weight. */
  lemma EdgeWAt(g: Graph, i: int, k: int)
    requires WellFormed(g) && 0 <= i < |g| && 0 <= k < |g[i].out|
    ensures EdgeW(g, g[i].from, g[i].out[k].to) == Some(g[i].out[k].weight)
  {
    OutAt(g, i);
    LookupAt(g[i].out, k);
  }

  lemma {:induction false} LookupFound(es: seq<Edge>, y: Token) returns (k: int)
    requires Lookup(es, y).Some?
    ensures 0 <= k < |es| && es[k].to == y && es[k].weight == Lookup(es, y).value
  {
    if es[0].to == y {
      k := 0;
    } else {
      var k' := LookupFound(es[1..], y);
      k := k' + 1;
    }
  }

  lemma {:induction false} OutFound(g: Graph, x: Token) returns (i: int)
    requires Out(g, x) != []
    ensures 0 <= i < |g| && g[i].from == x && g[i].out == Out(g, x)
  {
    if g[0].from == x {
      i := 0;
    } else {
      var i' := OutFound(g[1..], x);
      i := i' + 1;
    }
  }

  /** Every edge the lookup reports is listed in the graph. */
  lemma EdgeWFound(g: Graph, x: Token, y: Token) returns (i: int, k: int)
    requires EdgeW(g, x, y).Some?
    ensures 0 <= i < |g| && 0 <= k < |g[i].out|
    ensures g[i].from == x && g[i].out[k] == Edge(y, EdgeW(g, x, y).value)
  {
    i := OutFound(g, x);
    k := LookupFound(g[i].out, y);
  }

  /** Both ends of a reported edge are nodes of a closed graph. */
  lemma EdgeWNodes(g: Graph, x: Token, y: Token)
    requires Closed(g) && EdgeW(g, x, y).Some?
    ensures x in Nodes(g) && y in Nodes(g)
  {
    var i, k := EdgeWFound(g, x, y);
  }

  /** Extending a walk by one edge adds that edge's weight. */
  lemma WalkAppend(g: Graph, p: seq<Token>, y: Token)
    requires IsWalk(g, p) && EdgeW(g, p[|p| - 1], y).Some?
    ensures IsWalk(g, p + [y])
    ensures WalkWeight(g, p + [y]) == WalkWeight(g, p) + EdgeW(g, p[|p| - 1], y).value
  {
    var q := p + [y];
    assert q[..|q| - 1] == p;
    assert IsWalk(g, q) by {
      forall j | 0 <= j < |q| - 1 ensures EdgeW(g, q[j], q[j + 1]).Some? {
        if j < |p| - 1 { assert q[j] == p[j] && q[j + 1] == p[j + 1]; }
      }
    }
  }

  /** Cutting the loop p[i..j] out of a walk, where p[i] == p[j], leaves a
      walk with the same ends. */
  lemma CutWalk(g: Graph, p: seq<Token>, i: int, j: int)
    requires IsWalk(g, p) && 0 <= i < j < |p| && p[i] == p[j]
    ensures IsWalk(g, p[..i] + p[j..])
    ensures (p[..i] + p[j..])[0] == p[0] && (p[..i] + p[j..])[|p| - (j - i) - 1] == p[|p| - 1]
  {
    var q := p[..i] + p[j..];
    assert |q| == |p| - (j - i);
    forall m | 0 <= m < |q| - 1 ensures EdgeW(g, q[m], q[m + 1]).Some? {
      if m < i - 1 {
        assert q[m] == p[m] && q[m + 1] == p[m + 1];
      } else if m == i - 1 {
        assert q[m] == p[m] && q[m + 1] == p[j] == p[m + 1];
      } else {
        assert q[m] == p[m - i + j] && q[m + 1] == p[m - i + j + 1];
      }
    }
    if i == 0 {
      assert q[0] == p[j];
    }
  }

  /** Every walk can be shortened to one with the same ends that repeats no token. */
  lemma {:induction false} ShortWalk(g: Graph, p: seq<Token>) returns (q: seq<Token>)
    requires IsWalk(g, p)
    ensures IsWalk(g, q) && Distinct(q) && |q| <= |p|
    ensures q[0] == p[0] && q[|q| - 1] == p[|p| - 1]
    decreases |p|
  {
    if Distinct(p) {
      q := p;
    } else {
      var i, j :| 0 <= i < j < |p| && p[i] == p[j];
      CutWalk(g, p, i, j);
      q := ShortWalk(g, p[..i] + p[j..]);
    }
  }

  /** A stretch of a walk is a walk. */
  lemma SubWalk(g: Graph, p: seq<Token>, a: int, b: int)
    requires IsWalk(g, p) && 0 <= a < b <= |p|
    ensures IsWalk(g, p[a..b])
  {
    var s := p[a..b];
    forall j | 0 <= j < |s| - 1 ensures EdgeW(g, s[j], s[j + 1]).Some? {
      assert s[j] == p[a + j] && s[j + 1] == p[a + j + 1];
    }
  }

  /** Joining a walk b onto the end of a walk a, where b starts, adds b's
      weight. */
  lemma {:induction false} WeightJoin(g: Graph, a: seq<Token>, b: seq<Token>)
    requires IsWalk(g, a) && IsWalk(g, b) && a[|a| - 1] == b[0]
    ensures IsWalk(g, a + b[1..])
    ensures WalkWeight(g, a + b[1..]) == WalkWeight(g, a) + WalkWeight(g, b)
    decreases |b|
  {
    if |b| == 1 {
      JoinOne(a, b);
    } else {
      var h := b[..|b| - 1];
      JoinLast(a, b);
      SubWalk(g, b, 0, |b| - 1);
      WeightJoin(g, a, h);
      WalkAppend(g, a + h[1..], b[|b| - 1]);
    }
  }

  lemma JoinOne(a: seq<Token>, b: seq<Token>)
    requires |b| == 1
    ensures a + b[1..] == a
  {
  }

  lemma JoinLast(a: seq<Token>, b: seq<Token>)
    requires |a| >= 1 && |b| >= 2 && a[|a| - 1] == b[0]
    ensures b[0..|b| - 1] == b[..|b| - 1]
    ensures (a + b[..|b| - 1][1..]) + [b[|b| - 1]] == a + b[1..]
    ensures (a + b[..|b| - 1][1..])[|a + b[..|b| - 1][1..]| - 1] == b[|b| - 2]
  {
    var h := b[..|b| - 1];
    if |h| == 1 {
      assert h[1..] == [];
      assert a + h[1..] == a;
    }
  }

  /** How the pieces of a walk with a loop p[i..j + 1] fit together. */
  lemma LoopParts(p: seq<Token>, i: int, j: int)
    requires 0 <= i < j < |p| && p[i] == p[j]
    ensures p[0..i + 1] == p[..i + 1] && p[j..|p|] == p[j..] && p[0..j + 1] == p[..j + 1]
    ensures p[..i + 1] + p[i..j + 1][1..] == p[..j + 1]
    ensures p[..j + 1] + p[j..][1..] == p
    ensures p[..i + 1] + p[j..][1..] == p[..i] + p[j..]
    ensures p[..i + 1][0] == p[0] && p[..i + 1][i] == p[i] && p[i..j + 1][0] == p[i]
    ensures p[i..j + 1][j - i] == p[i] && p[..j + 1][j] == p[j] && p[j..][0] == p[j]
  {
    assert p[..i + 1] + p[j..][1..] == p[..i] + p[j..] by {
      assert p[..i + 1] == p[..i] + [p[j]];
      assert p[j..] == [p[j]] + p[j..][1..];
    }
  }

  /** Cutting the loop p[i..j] out of a walk, where p[i] == p[j], takes away
      exactly the weight of that loop, a closed route reached by p[..i + 1]. */
  lemma CutWeight(g: Graph, p: seq<Token>, i: int, j: int)
    requires IsWalk(g, p) && 0 <= i < j < |p| && p[i] == p[j]
    ensures IsWalk(g, p[..i + 1]) && ClosedRoute(g, p[i..j + 1])
    ensures IsWalk(g, p[..i] + p[j..])
    ensures WalkWeight(g, p) == WalkWeight(g, p[..i] + p[j..]) + WalkWeight(g, p[i..j + 1])
  {
    LoopParts(p, i, j);
    SubWalk(g, p, 0, i + 1);
    SubWalk(g, p, i, j + 1);
    SubWalk(g, p, j, |p|);
    SubWalk(g, p, 0, j + 1);
    WeightJoin(g, p[..i + 1], p[i..j + 1]);
    WeightJoin(g, p[..j + 1], p[j..]);
    WeightJoin(g, p[..i + 1], p[j..]);
  }

  /** The walk p leads from start to the closed route c. */
  ghost predicate ReachedRoute(g: Graph, start: Token, p: seq<Token>, c: seq<Token>)
  {
    IsWalk(g, p) && p[0] == start && ClosedRoute(g, c) && p[|p| - 1] == c[0]
  }

  /** No closed route reachable from start weighs less than zero. */
  ghost predicate NoNegativeRoute(g: Graph, start: Token)
  {
    forall p, c {:trigger ReachedRoute(g, start, p, c)} :: ReachedRoute(g, start, p, c) ==> WalkWeight(g, c) >= 0
  }

  /** Without reachable negative closed routes, a walk from start can be
      shortened to one that repeats no token, has the same ends and weighs
      no more. */
  lemma {:induction false} ShortLighter(g: Graph, start: Token, p: seq<Token>) returns (q: seq<Token>)
    requires NoNegativeRoute(g, start) && IsWalk(g, p) && p[0] == start
    ensures IsWalk(g, q) && Distinct(q) && q[0] == start && q[|q| - 1] == p[|p| - 1]
    ensures WalkWeight(g, q) <= WalkWeight(g, p)
    decreases |p|
  {
    if Distinct(p) {
      q := p;
    } else {
      var i, j :| 0 <= i < j < |p| && p[i] == p[j];
      CutLighter(g, start, p, i, j);
      q := ShortLighter(g, start, p[..i] + p[j..]);
    }
  }

  /** Cutting out a loop reached from start makes a walk no heavier. */
  lemma CutLighter(g: Graph, start: Token, p: seq<Token>, i: int, j: int)
    requires NoNegativeRoute(g, start) && IsWalk(g, p) && p[0] == start
    requires 0 <= i < j < |p| && p[i] == p[j]
    ensures var cut := p[..i] + p[j..];
      IsWalk(g, cut) && |cut| < |p| && cut[0] == start && cut[|cut| - 1] == p[|p| - 1]
      && WalkWeight(g, cut) <= WalkWeight(g, p)
  {
    CutWalk(g, p, i, j);
    CutWeight(g, p, i, j);
    LoopReached(g, start, p, i, j);
    ReachedNonNegative(g, start, p[..i + 1], p[i..j + 1]);
  }

  /** The prefix p[..i + 1] of a walk from start reaches the loop p[i..j + 1]. */
  lemma LoopReached(g: Graph, start: Token, p: seq<Token>, i: int, j: int)
    requires IsWalk(g, p) && p[0] == start
    requires 0 <= i < j < |p| && p[i] == p[j]
    ensures ReachedRoute(g, start, p[..i + 1], p[i..j + 1])
  {
    CutWeight(g, p, i, j);
    LoopParts(p, i, j);
  }

  lemma ReachedNonNegative(g: Graph, start: Token, p: seq<Token>, c: seq<Token>)
    requires NoNegativeRoute(g, start) && ReachedRoute(g, start, p, c)
    ensures WalkWeight(g, c) >= 0
  {
  }

  /** In a closed graph every token of a walk with an edge is a node. */
  lemma WalkNodes(g: Graph, p: seq<Token>)
    requires Closed(g) && IsWalk(g, p) && |p| >= 2
    ensures forall j :: 0 <= j < |p| ==> p[j] in Nodes(g)
  {
    forall j | 0 <= j < |p| ensures p[j] in Nodes(g) {
      if j < |p| - 1 {
        EdgeWNodes(g, p[j], p[j + 1]);
      } else {
        EdgeWNodes(g, p[j - 1], p[j]);
      }
    }
  }

  /** The graph has at most as many nodes as entries. */
  lemma {:induction false} NodesBound(g: Graph)
    ensures |Nodes(g)| <= |g|
  {
    if g != [] {
      var h := g[..|g| - 1];
      assert Nodes(g) == Nodes(h) + {g[|g| - 1].from} by {
        forall x | x in Nodes(g) ensures x in Nodes(h) + {g[|g| - 1].from} {
          var i :| 0 <= i < |g| && g[i].from == x;
          if i < |g| - 1 { assert h[i] == g[i]; }
        }
        forall x | x in Nodes(h) ensures x in Nodes(g) {
          var i :| 0 <= i < |h| && h[i].from == x;
          assert g[i] == h[i];
        }
      }
      NodesBound(h);
    }
  }

  /** A sequence without repetitions drawn from S is no longer than S is large. */
  lemma {:induction false} DistinctWithin(s: seq<Token>, S: set<Token>)
    requires Distinct(s) && forall j :: 0 <= j < |s| ==> s[j] in S
    ensures |s| <= |S|
  {
    if s != [] {
      var t := s[1..];
      forall j | 0 <= j < |t| ensures t[j] in S - {s[0]} {
        assert t[j] == s[j + 1];
      }
      DistinctWithin(t, S - {s[0]});
    }
  }
}
