/** The weighted graph the searches run on: each node id with the edges of
    its node's exit set, in that set's iteration order. The exit sets are
    filled while a cavern is built and are read-only afterwards, so a search
    sees this map as a value. Paths are sequences of node ids; the weight of
    a path charges each step with the edge Node.getEdge picks for it, as
    pathSum does (src/app/Path.java:115-130). */
module Graphs {
  import opened Wrappers
  import opened Edges

  type Graph = map<NodeId, seq<Edge>>

  /** Every exit of a node starts at that node, ends at a node of the graph
      and has a non-negative length (the caverns give every edge a length of
      at least 1). */
  predicate WellFormed(g: Graph)
  {
    forall n, k :: n in g && 0 <= k < |g[n]| ==>
      g[n][k].src == n && g[n][k].dest in g && 0 <= g[n][k].length
  }

  /** At most one exit from a node to any given node, as in every cavern. */
  predicate Simple(g: Graph)
  {
    forall n, i, j :: n in g && 0 <= i < j < |g[n]| ==> g[n][i].dest != g[n][j].dest
  }

  /** The position of the first edge of es whose destination is q, or |es|
      when there is none: the edge Node.getEdge(q) returns. */
  function IndexTo(es: seq<Edge>, q: NodeId): (r: int)
    ensures 0 <= r <= |es|
    ensures r < |es| ==> es[r].dest == q
    ensures forall j :: 0 <= j < r ==> es[j].dest != q
  {
    if es == [] then 0
    else if es[0].dest == q then 0
    else 1 + IndexTo(es[1..], q)
  }

  /** An exit at any position k to q means IndexTo finds one no later. */
  lemma IndexToFinds(es: seq<Edge>, q: NodeId, k: int)
    requires 0 <= k < |es| && es[k].dest == q
    ensures IndexTo(es, q) <= k
  {
  }

  /** Without parallel exits, the exit found is the only one to q. */
  lemma IndexToUnique(g: Graph, n: NodeId, k: int)
    requires Simple(g) && n in g && 0 <= k < |g[n]|
    ensures IndexTo(g[n], g[n][k].dest) == k
  {
    IndexToFinds(g[n], g[n][k].dest, k);
  }

  /** Node.getEdge(q) on a node whose exits are es: the first exit to q;
      IllegalArgumentException when no exit leads to q. */
  function GetEdge(es: seq<Edge>, q: NodeId): (r: Result<Edge>)
    ensures r.Ok? <==> exists k :: 0 <= k < |es| && es[k].dest == q
    ensures r.Ok? ==> r.value in es && r.value.dest == q
    ensures r.Err? ==> r.error == IllegalArgument
  {
    var k := IndexTo(es, q);
    if k < |es| then Ok(es[k]) else Err(IllegalArgument)
  }

  /** u has an exit to w. */
  predicate Adjacent(g: Graph, u: NodeId, w: NodeId)
  {
    u in g && IndexTo(g[u], w) < |g[u]|
  }

  /** The length of the edge u.getEdge(w). */
  function EdgeLen(g: Graph, u: NodeId, w: NodeId): int
    requires Adjacent(g, u, w)
  {
    g[u][IndexTo(g[u], w)].length
  }

  /** A path: at least one node, all in the graph, consecutive nodes joined by
      an exit. */
  predicate IsPath(g: Graph, p: seq<NodeId>)
  {
    && |p| > 0
    && (forall i :: 0 <= i < |p| ==> p[i] in g)
    && (forall i :: 0 <= i < |p| - 1 ==> Adjacent(g, p[i], p[i + 1]))
  }

  /** A path from v to t. */
  predicate PathFrom(g: Graph, p: seq<NodeId>, v: NodeId, t: NodeId)
  {
    IsPath(g, p) && p[0] == v && p[|p| - 1] == t
  }

  /** Some path leads from v to t. */
  ghost predicate Reachable(g: Graph, v: NodeId, t: NodeId)
  {
    exists p :: PathFrom(g, p, v, t)
  }

  /** The path's weight: 0 for one node, otherwise the weight of the path
      without its last node plus the length of the last step's edge. */
  function Weight(g: Graph, p: seq<NodeId>): int
    requires IsPath(g, p)
    decreases |p|
  {
    if |p| == 1 then 0
    else
      assert IsPath(g, p[..|p| - 1]);
      Weight(g, p[..|p| - 1]) + EdgeLen(g, p[|p| - 2], p[|p| - 1])
  }

  /** A path extended by one adjacent node. */
  lemma ExtendPath(g: Graph, p: seq<NodeId>, w: NodeId)
    requires IsPath(g, p) && w in g && Adjacent(g, p[|p| - 1], w)
    ensures IsPath(g, p + [w]) && (p + [w])[..|p|] == p
    ensures Weight(g, p + [w]) == Weight(g, p) + EdgeLen(g, p[|p| - 1], w)
  {
    assert (p + [w])[..|p|] == p;
  }

  /** With non-negative lengths, a path's weight is non-negative. */
  lemma {:induction false} WeightNonNeg(g: Graph, p: seq<NodeId>)
    requires WellFormed(g) && IsPath(g, p)
    ensures 0 <= Weight(g, p)
    decreases |p|
  {
    if |p| > 1 {
      var q := p[..|p| - 1];
      assert IsPath(g, q);
      WeightNonNeg(g, q);
      var k := IndexTo(g[p[|p| - 2]], p[|p| - 1]);
      assert g[p[|p| - 2]][k].length >= 0;
    }
  }

  /** With non-negative lengths, weights are non-negative and grow along a
      path. */
  lemma {:induction false} WeightPrefix(g: Graph, p: seq<NodeId>, i: int)
    requires WellFormed(g) && IsPath(g, p) && 0 < i <= |p|
    ensures IsPath(g, p[..i]) && 0 <= Weight(g, p[..i]) <= Weight(g, p)
    decreases |p|
  {
    assert IsPath(g, p[..i]);
    if i == |p| {
      assert p[..i] == p;
      WeightNonNeg(g, p);
    } else {
      var q := p[..|p| - 1];
      assert IsPath(g, q);
      assert q[..i] == p[..i];
      WeightPrefix(g, q, i);
      var k := IndexTo(g[p[|p| - 2]], p[|p| - 1]);
      assert g[p[|p| - 2]][k].length >= 0;
    }
  }
}
