/**
  `BellmanFordArbitrage.reconstruct_cycle` (src/bots/BellmanFord.py lines
  47-67): follow recorded predecessors back from a token until the walk
  reaches `None` or a token it has already visited, trim the walk to the
  repeated part, and reverse it.
 */
module Reconstruction {
  import opened Wrappers
  import opened Graphs

  /** The dictionary `predecessor`: each token's recorded predecessor, or `None`. */
  type Preds = map<Token, Option<Token>>

  /** Every recorded predecessor is itself a key, so `predecessor[current]`
      never raises KeyError. */
  predicate ClosedPreds(pred: Preds)
  {
    forall y :: y in pred && pred[y].Some? ==> pred[y].value in pred
  }

  /** Python's test `if current:` on an optional token: `None` and the empty
      string are both false. */
  predicate Truthy(cur: Option<Token>)
  {
    cur.Some? && cur.value != ""
  }

  predicate InPreds(pred: Preds, s: seq<Token>)
  {
    forall j :: 0 <= j < |s| ==> s[j] in pred
  }

  /** s[j + 1] is the recorded predecessor of s[j], all along s: s walks
      the predecessor links forwards. */
  predicate Follows(pred: Preds, s: seq<Token>)
  {
    forall j :: 0 <= j < |s| - 1 ==> s[j] in pred && pred[s[j]] == Some(s[j + 1])
  }

  /** Lines 57-59: extend the walk by predecessors while the next one is a
      token not yet on it. */
  function Chase(pred: Preds, walk: seq<Token>): (r: seq<Token>)
    requires |walk| >= 1 && Distinct(walk) && InPreds(pred, walk) && ClosedPreds(pred)
    decreases |pred| - |walk|
    ensures |r| >= |walk| && r[0] == walk[0]
    ensures Distinct(r) && InPreds(pred, r)
    ensures Follows(pred, walk) ==> Follows(pred, r)
    ensures pred[r[|r| - 1]].None? || pred[r[|r| - 1]].value in r
  {
    var cur := pred[walk[|walk| - 1]];
    if cur.Some? && cur.value !in walk then
      var next := walk + [cur.value];
      Extend(pred, walk, cur.value);
      Chase(pred, next)
    else walk
  }

  /** One more step of the walk keeps it without repetitions, inside the
      dictionary and no longer than it. */
  lemma Extend(pred: Preds, walk: seq<Token>, x: Token)
    requires Distinct(walk) && InPreds(pred, walk) && x in pred && x !in walk
    requires |walk| >= 1 && pred[walk[|walk| - 1]] == Some(x)
    ensures Distinct(walk + [x]) && InPreds(pred, walk + [x]) && |walk + [x]| <= |pred|
    ensures (walk + [x])[0] == walk[0]
    ensures Follows(pred, walk) ==> Follows(pred, walk + [x])
  {
    var next := walk + [x];
    assert Distinct(next) by {
      forall i, j | 0 <= i < j < |next| ensures next[i] != next[j] {
        if j < |walk| { assert next[i] == walk[i] && next[j] == walk[j]; }
      }
    }
    DistinctWithin(next, pred.Keys);
    if Follows(pred, walk) {
      FollowsSnoc(pred, walk, x);
    }
  }

  lemma FollowsSnoc(pred: Preds, walk: seq<Token>, x: Token)
    requires Follows(pred, walk) && |walk| >= 1 && walk[|walk| - 1] in pred
    requires pred[walk[|walk| - 1]] == Some(x)
    ensures Follows(pred, walk + [x])
  {
    var next := walk + [x];
    forall j | 0 <= j < |next| - 1 ensures next[j] in pred && pred[next[j]] == Some(next[j + 1]) {
      if j < |walk| - 1 { assert next[j] == walk[j] && next[j + 1] == walk[j + 1]; }
    }
  }

  lemma ReverseSnoc(s: seq<Token>, x: Token)
    ensures Reverse(s + [x]) == [x] + Reverse(s)
  {
    var a, b := Reverse(s + [x]), [x] + Reverse(s);
    assert |a| == |b|;
    forall j | 0 <= j < |a| ensures a[j] == b[j] {
      if j > 0 { assert b[j] == Reverse(s)[j - 1]; }
    }
  }

  /** The walk of lines 54-59, started at `start`. */
  function Walk(pred: Preds, start: Token): seq<Token>
    requires start in pred && ClosedPreds(pred)
  {
    Chase(pred, [start])
  }

  /** The value of `current` when the loop of lines 57-59 ends. */
  function Stop(pred: Preds, start: Token): Option<Token>
    requires start in pred && ClosedPreds(pred)
  {
    var walk := Walk(pred, start);
    pred[walk[|walk| - 1]]
  }

  /** `s.index(x)`: the first position of x in s. */
  function IndexOf(s: seq<Token>, x: Token): (i: nat)
    requires x in s
    ensures i < |s| && s[i] == x && forall j :: 0 <= j < i ==> s[j] != x
  {
    if s[0] == x then 0 else 1 + IndexOf(s[1..], x)
  }

  /** `list.reverse()`. */
  function Reverse(s: seq<Token>): (r: seq<Token>)
    ensures |r| == |s| && forall j :: 0 <= j < |s| ==> r[j] == s[|s| - 1 - j]
  {
    if s == [] then [] else Reverse(s[1..]) + [s[0]]
  }

  /** What `reconstruct_cycle(predecessor, start)` returns. */
  function Reconstructed(pred: Preds, start: Token): seq<Token>
    requires start in pred && ClosedPreds(pred)
  {
    var walk := Walk(pred, start);
    var cur := Stop(pred, start);
    if Truthy(cur) then
      var c := walk + [cur.value];
      Reverse(c[IndexOf(c, cur.value)..])
    else Reverse(walk)
  }

  method ReconstructCycle(pred: Preds, start: Token) returns (cycle: seq<Token>)
    requires start in pred && ClosedPreds(pred)
    ensures cycle == Reconstructed(pred, start)
  {
    cycle := [start];
    var current := pred[start];
    while current.Some? && current.value !in cycle
      invariant |cycle| >= 1 && Distinct(cycle) && InPreds(pred, cycle)
      invariant current == pred[cycle[|cycle| - 1]]
      invariant Chase(pred, cycle) == Walk(pred, start)
      decreases |pred| - |cycle|
    {
      Extend(pred, cycle, current.value);
      cycle := cycle + [current.value];
      current := pred[current.value];
    }
    if Truthy(current) {
      cycle := cycle + [current.value];
      cycle := cycle[IndexOf(cycle, current.value)..];
    }
    // The in-place `cycle.reverse()`, as a new value bound to the same variable.
    cycle := Reverse(cycle);
  }

  lemma FollowsSlice(pred: Preds, s: seq<Token>, i: int)
    requires Follows(pred, s) && 0 <= i <= |s|
    ensures Follows(pred, s[i..])
  {
    var t := s[i..];
    forall j | 0 <= j < |t| - 1 ensures t[j] in pred && pred[t[j]] == Some(t[j + 1]) {
      assert t[j] == s[i + j] && t[j + 1] == s[i + j + 1];
    }
  }

  lemma FollowsReverse(pred: Preds, s: seq<Token>)
    requires Follows(pred, s)
    ensures BackLinked(pred, Reverse(s))
  {
    var r := Reverse(s);
    forall j | 1 <= j < |r| ensures r[j] in pred && pred[r[j]] == Some(r[j - 1]) {
      assert r[j] == s[|s| - 1 - j] && r[j - 1] == s[|s| - 1 - j + 1];
      assert |s| - 1 - j < |s| - 1;
    }
  }

  lemma DistinctReverse(s: seq<Token>)
    requires Distinct(s)
    ensures Distinct(Reverse(s))
  {
    var r := Reverse(s);
    forall i, j | 0 <= i < j < |r| ensures r[i] != r[j] {
      assert r[i] == s[|s| - 1 - i] && r[j] == s[|s| - 1 - j];
    }
  }

  /** The walk keeps no token twice, so it is never longer than the
      dictionary: the loop of lines 57-59 terminates. */
  lemma WalkBound(pred: Preds, start: Token)
    requires start in pred && ClosedPreds(pred)
    ensures |Walk(pred, start)| <= |pred|
  {
    var w := Walk(pred, start);
    DistinctWithin(w, pred.Keys);
  }

  /** The shape of the result. When the walk stops at a visited token c
      (and c is truthy), the result starts and ends at c, visits no token
      twice in between, and each token's predecessor is the one before it.
      When it stops at `None` or the empty string, the result is the
      reversed walk, ending at `start`, again linked by predecessors. */
  lemma ReconstructShape(pred: Preds, start: Token)
    requires start in pred && ClosedPreds(pred)
    ensures var w := Walk(pred, start); var cur := Stop(pred, start);
      && w[0] == start && (cur.None? || cur.value in w)
      && |Reconstructed(pred, start)| >= 1
      && BackLinked(pred, Reconstructed(pred, start))
      && (Truthy(cur) ==>
            var r := Reconstructed(pred, start);
            |r| >= 2 && r[0] == cur.value && r[|r| - 1] == cur.value && Distinct(r[1..]))
      && (!Truthy(cur) ==>
            var r := Reconstructed(pred, start);
            r == Reverse(w) && r[|r| - 1] == start && pred[r[0]] == cur && Distinct(r))
  {
    var w := Walk(pred, start);
    if Truthy(Stop(pred, start)) {
      ClosedShape(pred, w, Stop(pred, start).value);
    } else {
      FollowsReverse(pred, w);
      DistinctReverse(w);
    }
  }

  /** The trimmed case of lines 61-63: the walk w stops at its own token v. */
  lemma ClosedShape(pred: Preds, w: seq<Token>, v: Token)
    requires |w| >= 1 && Distinct(w) && Follows(pred, w) && InPreds(pred, w)
    requires pred[w[|w| - 1]] == Some(v) && v in w
    ensures var c := w + [v]; var r := Reverse(c[IndexOf(c, v)..]);
      |r| >= 2 && r[0] == v && r[|r| - 1] == v && Distinct(r[1..]) && BackLinked(pred, r)
  {
    var c := w + [v];
    var i := IndexOf(c, v);
    FollowsSnoc(pred, w, v);
    FollowsSlice(pred, c, i);
    FollowsReverse(pred, c[i..]);
    var k :| 0 <= k < |w| && w[k] == v;
    assert c[k] == v;
    assert c[i] == w[i];
    TrimmedShape(w, v, i);
  }

  /** The loop stopped at v == w[i]: the trimmed, reversed route starts and
      ends at v and repeats nothing in between. */
  lemma TrimmedShape(w: seq<Token>, v: Token, i: int)
    requires Distinct(w) && 0 <= i < |w| && w[i] == v
    ensures var r := Reverse((w + [v])[i..]);
      |r| >= 2 && r[0] == v && r[|r| - 1] == v && Distinct(r[1..])
  {
    var tail := w[i..];
    assert (w + [v])[i..] == tail + [v];
    DistinctSlice(w, i);
    DistinctReverse(tail);
    ReverseSnoc(tail, v);
    assert Reverse(tail + [v])[1..] == Reverse(tail);
  }

  lemma DistinctSlice(s: seq<Token>, i: int)
    requires Distinct(s) && 0 <= i <= |s|
    ensures Distinct(s[i..])
  {
    var t := s[i..];
    forall a, b | 0 <= a < b < |t| ensures t[a] != t[b] {
      assert t[a] == s[i + a] && t[b] == s[i + b];
    }
  }
}
