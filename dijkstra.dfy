/** The invariant shared by the two Dijkstra loops (Path.shortest and
    Cavern.minPathLengthToTarget). The state is D, the distance recorded for
    every node discovered so far (the SF map of Path, the pathWeights map of
    Cavern), and Fr, the frontier: the heap's elements with their
    priorities. A node is settled once it has been discovered and polled.
    The lemmas take the invariant across one step of the loops and derive
    what holds when the target is polled or the heap runs dry. */
module Dijkstra {
  import opened Edges
  import opened Graphs

  /** The nodes discovered and already polled. */
  ghost function SettledSet(D: map<NodeId, int>, Fr: map<NodeId, int>): set<NodeId>
  {
    D.Keys - Fr.Keys
  }

  /** The first k exits of u have been relaxed: each leads to a discovered
      node whose distance is at most u's plus the edge's length. */
  ghost predicate RelaxedUpTo(g: Graph, D: map<NodeId, int>, u: NodeId, k: int)
  {
    && u in g && u in D && 0 <= k <= |g[u]|
    && forall j :: 0 <= j < k ==> g[u][j].dest in D && D[g[u][j].dest] <= D[u] + g[u][j].length
  }

  /** What holds throughout: the start has distance 0, distances are
      non-negative and the heap holds discovered nodes at their recorded
      distances. */
  ghost predicate Base(g: Graph, v: NodeId, D: map<NodeId, int>, Fr: map<NodeId, int>)
  {
    && WellFormed(g)
    && v in D && D[v] == 0
    && (forall x :: x in D ==> x in g && 0 <= D[x])
    && (forall x :: x in Fr ==> x in D && Fr[x] == D[x])
  }

  /** The invariant at the head of the outer loop: every settled node has
      all its exits relaxed, and no settled node is farther than any node of
      the frontier. */
  ghost predicate Inv(g: Graph, v: NodeId, D: map<NodeId, int>, Fr: map<NodeId, int>)
  {
    && Base(g, v, D, Fr)
    && (forall u :: u in D && u !in Fr ==> RelaxedUpTo(g, D, u, |g[u]|))
    && (forall u, x :: u in D && u !in Fr && x in Fr ==> D[u] <= Fr[x])
  }

  /** The invariant of the inner loop over f's exits: f has just been
      polled and its first k exits relaxed; every settled node is at most as
      far as f, and f at most as far as any frontier node. */
  ghost predicate Scanning(g: Graph, v: NodeId, D: map<NodeId, int>, Fr: map<NodeId, int>, f: NodeId, k: int)
  {
    && Base(g, v, D, Fr)
    && f in D && f !in Fr
    && (forall u :: u in D && u !in Fr && u != f ==> RelaxedUpTo(g, D, u, |g[u]|))
    && RelaxedUpTo(g, D, f, k)
    && (forall u :: u in D && u !in Fr ==> D[u] <= D[f])
    && (forall x :: x in Fr ==> D[f] <= Fr[x])
  }

  /** The start alone, at distance 0, in the map and in the heap. */
  lemma Start(g: Graph, v: NodeId)
    requires WellFormed(g) && v in g
    ensures Inv(g, v, map[v := 0], map[v := 0])
    ensures SettledSet(map[v := 0], map[v := 0]) == {}
  {
  }

  /** Polling a frontier node of least distance settles it. */
  lemma Poll(g: Graph, v: NodeId, D: map<NodeId, int>, Fr: map<NodeId, int>, f: NodeId)
    requires Inv(g, v, D, Fr) && f in Fr
    requires forall x :: x in Fr ==> Fr[f] <= Fr[x]
    ensures Scanning(g, v, D, Fr - {f}, f, 0)
    ensures f !in SettledSet(D, Fr) && f in g
    ensures SettledSet(D, Fr - {f}) == SettledSet(D, Fr) + {f}
  {
    var Fr2 := Fr - {f};
    forall u | u in D && u !in Fr2
      ensures D[u] <= D[f]
    {
      if u != f {
        assert D[u] <= Fr[f];
      }
    }
  }

  /** Recording the distance nd through f for the destination w of f's exit
      k, when w is new or nd strictly smaller than w's distance: a new w is
      not in the heap (so adding it succeeds), an improved w is in the heap
      (so updating its priority succeeds) and is neither the start nor f;
      the inner invariant moves on to exit k + 1 and the settled set stays
      the same. */
  lemma RelaxLower(g: Graph, v: NodeId, D: map<NodeId, int>, Fr: map<NodeId, int>, f: NodeId, k: int, w: NodeId, nd: int)
    requires Scanning(g, v, D, Fr, f, k) && k < |g[f]|
    requires w == g[f][k].dest && nd == D[f] + g[f][k].length
    requires w !in D || nd < D[w]
    ensures w in g && w != f && w != v
    ensures w !in D ==> w !in Fr
    ensures w in D ==> w in Fr
    ensures Scanning(g, v, D[w := nd], Fr[w := nd], f, k + 1)
    ensures SettledSet(D[w := nd], Fr[w := nd]) == SettledSet(D, Fr)
  {
    assert 0 <= g[f][k].length;
    var D2, Fr2 := D[w := nd], Fr[w := nd];
    forall u | u in D2 && u !in Fr2 && u != f
      ensures RelaxedUpTo(g, D2, u, |g[u]|)
    {
      assert RelaxedUpTo(g, D, u, |g[u]|);
    }
    assert RelaxedUpTo(g, D, f, k);
    assert RelaxedUpTo(g, D2, f, k + 1);
    assert SettledSet(D2, Fr2) == SettledSet(D, Fr);
  }

  /** When w's distance is already at most nd, nothing changes and the inner
      invariant moves on to exit k + 1. */
  lemma RelaxKeep(g: Graph, v: NodeId, D: map<NodeId, int>, Fr: map<NodeId, int>, f: NodeId, k: int, w: NodeId, nd: int)
    requires Scanning(g, v, D, Fr, f, k) && k < |g[f]|
    requires w == g[f][k].dest && nd == D[f] + g[f][k].length
    requires w in D && D[w] <= nd
    ensures Scanning(g, v, D, Fr, f, k + 1)
  {
  }

  /** Relaxation only lowers distances: every node discovered in D0 is
      still discovered in D, at a distance no larger. */
  ghost predicate Lowered(D0: map<NodeId, int>, D: map<NodeId, int>)
  {
    forall x :: x in D0 ==> x in D && D[x] <= D0[x]
  }

  /** Recording a new node, or a smaller distance for a known one, keeps
      distances lowered. */
  lemma LowerOne(D0: map<NodeId, int>, D: map<NodeId, int>, w: NodeId, nd: int)
    requires Lowered(D0, D) && (w !in D || nd < D[w])
    ensures Lowered(D0, D[w := nd])
  {
    forall x | x in D0
      ensures x in D[w := nd] && D[w := nd][x] <= D0[x]
    {
      assert x in D && D[x] <= D0[x];
    }
  }

  /** Once all of f's exits are relaxed, the outer invariant holds again. */
  lemma Scanned(g: Graph, v: NodeId, D: map<NodeId, int>, Fr: map<NodeId, int>, f: NodeId)
    requires f in g && Scanning(g, v, D, Fr, f, |g[f]|)
    ensures Inv(g, v, D, Fr)
  {
  }

  /** The heart of Dijkstra's argument: while f is a frontier node of least
      distance, a path from the start to a settled node weighs at least that
      node's distance, and a path to any other node weighs at least f's. */
  lemma {:induction false} LowerBound(g: Graph, v: NodeId, D: map<NodeId, int>, Fr: map<NodeId, int>, f: NodeId, q: seq<NodeId>)
    requires Inv(g, v, D, Fr) && f in Fr
    requires forall x :: x in Fr ==> Fr[f] <= Fr[x]
    requires IsPath(g, q) && q[0] == v
    ensures var t := q[|q| - 1];
      if t in D && t !in Fr then D[t] <= Weight(g, q) else Fr[f] <= Weight(g, q)
    decreases |q|
  {
    var t := q[|q| - 1];
    if |q| == 1 {
      if v in Fr {
        assert Fr[f] <= Fr[v];
      }
    } else {
      var q1 := q[..|q| - 1];
      assert IsPath(g, q1) && q1[0] == v;
      LowerBound(g, v, D, Fr, f, q1);
      var y := q1[|q1| - 1];
      assert y == q[|q| - 2] && Adjacent(g, y, t);
      var j := IndexTo(g[y], t);
      assert Weight(g, q) == Weight(g, q1) + g[y][j].length;
      assert 0 <= g[y][j].length;
      if y in D && y !in Fr {
        assert RelaxedUpTo(g, D, y, |g[y]|);
        assert t in D && D[t] <= D[y] + g[y][j].length;
        if t in Fr {
          assert Fr[f] <= Fr[t];
        }
      } else if t in D && t !in Fr {
        assert D[t] <= Fr[f];
      }
    }
  }

  /** When the heap is empty, every node a path from the start reaches has
      been settled, at a distance no larger than the path's weight. */
  lemma {:induction false} Closure(g: Graph, v: NodeId, D: map<NodeId, int>, q: seq<NodeId>)
    requires Inv(g, v, D, map[])
    requires IsPath(g, q) && q[0] == v
    ensures q[|q| - 1] in D && D[q[|q| - 1]] <= Weight(g, q)
    decreases |q|
  {
    if |q| > 1 {
      var q1 := q[..|q| - 1];
      assert IsPath(g, q1) && q1[0] == v;
      Closure(g, v, D, q1);
      var y, t := q1[|q1| - 1], q[|q| - 1];
      assert y == q[|q| - 2] && Adjacent(g, y, t);
      var j := IndexTo(g[y], t);
      assert RelaxedUpTo(g, D, y, |g[y]|);
      assert Weight(g, q) == Weight(g, q1) + g[y][j].length;
    }
  }

  /** The heap ran dry without settling t: no path leads to it. */
  lemma Unreachable(g: Graph, v: NodeId, t: NodeId, D: map<NodeId, int>)
    requires Inv(g, v, D, map[]) && t !in SettledSet(D, map[])
    ensures !Reachable(g, v, t)
  {
    forall q | PathFrom(g, q, v, t)
      ensures false
    {
      Closure(g, v, D, q);
    }
  }

  /** The settled set only gains f when f leaves the frontier, so the count
      of unsettled nodes of the graph falls by one. */
  lemma SettleCount(g: Graph, before: set<NodeId>, f: NodeId)
    requires f in g && f !in before
    ensures |g.Keys - (before + {f})| < |g.Keys - before|
  {
    assert g.Keys - (before + {f}) == (g.Keys - before) - {f};
  }
}
