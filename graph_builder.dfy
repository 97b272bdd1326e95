/**
  `build_graph_from_prices`: turns the nested rate table `prices[base][quote]`
  into the weighted graph Bellman-Ford runs on. A rate that is not positive is
  dropped; every other entry becomes an edge weighted `-log(rate)`, which this
  model takes as the parameter `negLog`.
 */
module GraphBuilder {
  import opened Wrappers
  import opened Graphs

  /** One entry `quote: rate` of `prices[base]`. */
  datatype Quote = Quote(quote: Token, rate: real)

  /** One entry `base: {quote: rate, ...}` of `prices`. */
  datatype Market = Market(base: Token, quotes: seq<Quote>)

  type Prices = seq<Market>

  predicate DistinctQuotes(qs: seq<Quote>)
  {
    forall k, l :: 0 <= k < l < |qs| ==> qs[k].quote != qs[l].quote
  }

  /** Both levels have distinct keys, as the Python dictionaries do. */
  predicate IsPriceTable(prices: Prices)
  {
    && (forall i, j :: 0 <= i < j < |prices| ==> prices[i].base != prices[j].base)
    && (forall i :: 0 <= i < |prices| ==> DistinctQuotes(prices[i].quotes))
  }

  /** `prices[base][y]` for the quotes `qs` of one base, if present. */
  function RateOf(qs: seq<Quote>, y: Token): Option<real>
  {
    if qs == [] then None
    else if qs[|qs| - 1].quote == y then Some(qs[|qs| - 1].rate)
    else RateOf(qs[..|qs| - 1], y)
  }

  /** The edges lines 80-83 add for one base, in insertion order. */
  function Kept(qs: seq<Quote>, negLog: real -> int): seq<Edge>
  {
    if qs == [] then []
    else
      var q := qs[|qs| - 1];
      Kept(qs[..|qs| - 1], negLog) + (if q.rate > 0.0 then [Edge(q.quote, negLog(q.rate))] else [])
  }

  function BuiltGraph(prices: Prices, negLog: real -> int): Graph
  {
    seq(|prices|, i requires 0 <= i < |prices| => Adjacency(prices[i].base, Kept(prices[i].quotes, negLog)))
  }

  method BuildGraphFromPrices(prices: Prices, negLog: real -> int) returns (graph: Graph)
    requires IsPriceTable(prices)
    ensures graph == BuiltGraph(prices, negLog)
    ensures |graph| == |prices| && forall i :: 0 <= i < |graph| ==> graph[i].from == prices[i].base
  {
    graph := [];
    var b := 0;
    while b < |prices|
      invariant 0 <= b <= |prices| && |graph| == b
      invariant forall i :: 0 <= i < b ==> graph[i] == Adjacency(prices[i].base, Kept(prices[i].quotes, negLog))
    {
      var base := prices[b].base;
      graph := graph + [Adjacency(base, [])];
      var quotes := prices[b].quotes;
      var q := 0;
      while q < |quotes|
        invariant 0 <= q <= |quotes| && |graph| == b + 1
        invariant forall i :: 0 <= i < b ==> graph[i] == Adjacency(prices[i].base, Kept(prices[i].quotes, negLog))
        invariant graph[b] == Adjacency(base, Kept(quotes[..q], negLog))
      {
        assert quotes[..q + 1][..q] == quotes[..q];
        var rate := quotes[q].rate;
        if rate > 0.0 {
          graph := graph[b := Adjacency(base, graph[b].out + [Edge(quotes[q].quote, negLog(rate))])];
        }
        q := q + 1;
      }
      assert quotes[..|quotes|] == quotes;
      b := b + 1;
    }
  }

  lemma {:induction false} LookupConcat(a: seq<Edge>, b: seq<Edge>, y: Token)
    ensures Lookup(a + b, y) == if Lookup(a, y).Some? then Lookup(a, y) else Lookup(b, y)
  {
    if a == [] {
      assert a + b == b;
    } else {
      assert (a + b)[0] == a[0] && (a + b)[1..] == a[1..] + b;
      LookupConcat(a[1..], b, y);
    }
  }

  lemma {:induction false} RateOfAbsent(qs: seq<Quote>, y: Token)
    requires forall k :: 0 <= k < |qs| ==> qs[k].quote != y
    ensures RateOf(qs, y) == None
  {
    if qs != [] {
      RateOfAbsent(qs[..|qs| - 1], y);
    }
  }

  /** With distinct quotes, the built edge list has an edge to y exactly when
      the rate for y is positive, and then its weight is negLog of that rate. */
  lemma {:induction false} LookupKept(qs: seq<Quote>, negLog: real -> int, y: Token)
    requires DistinctQuotes(qs)
    ensures Lookup(Kept(qs, negLog), y) ==
      match RateOf(qs, y)
      case Some(r) => if r > 0.0 then Some(negLog(r)) else None
      case None => None
  {
    if qs != [] {
      var init, q := qs[..|qs| - 1], qs[|qs| - 1];
      var tail := if q.rate > 0.0 then [Edge(q.quote, negLog(q.rate))] else [];
      assert Kept(qs, negLog) == Kept(init, negLog) + tail;
      LookupConcat(Kept(init, negLog), tail, y);
      LookupKept(init, negLog, y);
      if q.quote == y {
        RateOfAbsent(init, y);
      }
    }
  }

  /** Every kept edge comes from a quote of the same base with a positive rate. */
  lemma {:induction false} KeptFrom(qs: seq<Quote>, negLog: real -> int, m: int) returns (k: int)
    requires 0 <= m < |Kept(qs, negLog)|
    ensures 0 <= k < |qs| && qs[k].rate > 0.0
    ensures Kept(qs, negLog)[m] == Edge(qs[k].quote, negLog(qs[k].rate))
  {
    var init := qs[..|qs| - 1];
    if m < |Kept(init, negLog)| {
      k := KeptFrom(init, negLog, m);
    } else {
      k := |qs| - 1;
    }
  }

  lemma {:induction false} KeptDistinct(qs: seq<Quote>, negLog: real -> int)
    requires DistinctQuotes(qs)
    ensures DistinctTargets(Kept(qs, negLog))
  {
    if qs != [] {
      var init, q := qs[..|qs| - 1], qs[|qs| - 1];
      var es := Kept(qs, negLog);
      var ei := Kept(init, negLog);
      KeptDistinct(init, negLog);
      forall a, b | 0 <= a < b < |es| ensures es[a].to != es[b].to {
        if b >= |ei| {
          var k := KeptFrom(init, negLog, a);
          assert es[a] == ei[a] && qs[k] == init[k];
        } else {
          assert es[a] == ei[a] && es[b] == ei[b];
        }
      }
    }
  }

  /** The built graph has exactly the bases of `prices` as its nodes, in the
      same order, each once, even when all of a base's rates are dropped. */
  lemma BuiltNodes(prices: Prices, negLog: real -> int)
    requires IsPriceTable(prices)
    ensures WellFormed(BuiltGraph(prices, negLog))
    ensures Nodes(BuiltGraph(prices, negLog)) == set i | 0 <= i < |prices| :: prices[i].base
  {
    var g := BuiltGraph(prices, negLog);
    forall i | 0 <= i < |g| ensures DistinctTargets(g[i].out) {
      KeptDistinct(prices[i].quotes, negLog);
    }
    var bases := set i | 0 <= i < |prices| :: prices[i].base;
    forall x | x in bases ensures x in Nodes(g) {
      var i :| 0 <= i < |prices| && prices[i].base == x;
      assert g[i].from == x;
    }
  }

  /** An edge base -> y is in the built graph exactly when `prices[base][y] > 0`,
      weighted `negLog(prices[base][y])`; a token that is not a base has no edges. */
  lemma BuiltEdges(prices: Prices, negLog: real -> int, x: Token, y: Token)
    requires IsPriceTable(prices)
    ensures forall i :: 0 <= i < |prices| && prices[i].base == x ==>
      EdgeW(BuiltGraph(prices, negLog), x, y) ==
        match RateOf(prices[i].quotes, y)
        case Some(r) => if r > 0.0 then Some(negLog(r)) else None
        case None => None
    ensures (forall i :: 0 <= i < |prices| ==> prices[i].base != x) ==>
      EdgeW(BuiltGraph(prices, negLog), x, y) == None
  {
    var g := BuiltGraph(prices, negLog);
    BuiltNodes(prices, negLog);
    forall i | 0 <= i < |prices| && prices[i].base == x
      ensures EdgeW(g, x, y) == match RateOf(prices[i].quotes, y)
        case Some(r) => if r > 0.0 then Some(negLog(r)) else None
        case None => None
    {
      OutAt(g, i);
      LookupKept(prices[i].quotes, negLog, y);
    }
    if Out(g, x) != [] {
      var i := OutFound(g, x);
    }
  }
}
