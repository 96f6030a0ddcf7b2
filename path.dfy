/** app/Path.java: Dijkstra's shortest-path search from a node v to a node
    end, with a min-heap of nodes as the frontier and a map from every
    discovered node to its SF record; the path is read back along the
    backpointers. app/Pollack.java carries identical copies of shortest, SF,
    getPath and pathSum, which these members model as well. */
module Paths {
  import opened Wrappers
  import opened Edges
  import opened Graphs
  import PriorityHeap
  import Dijkstra

  /** Path.SF: the shortest known distance from the start and the
      backpointer, the previous node on that path (None for the start). */
  datatype SF = SF(dist: int, bkptr: Option<NodeId>)

  /** The recorded distances. */
  ghost function Dists(sfs: map<NodeId, SF>): map<NodeId, int>
  {
    map w | w in sfs :: sfs[w].dist
  }

  /** The backpointers can be followed to the start: each one leads to a
      node of strictly smaller rank. */
  ghost predicate Ranked(sfs: map<NodeId, SF>, rank: map<NodeId, nat>)
  {
    forall w :: w in sfs ==>
      && w in rank
      && (sfs[w].bkptr.Some? ==>
            sfs[w].bkptr.value in sfs && sfs[w].bkptr.value in rank && rank[sfs[w].bkptr.value] < rank[w])
  }

  /** The backpointer of w is a settled node with an exit to w; without
      parallel exits, w's distance is the backpointer's plus that exit's
      length. */
  ghost predicate BackOk(g: Graph, sfs: map<NodeId, SF>, Fr: map<NodeId, int>, w: NodeId)
  {
    && w in sfs && sfs[w].bkptr.Some?
    && var u := sfs[w].bkptr.value;
      && u in sfs && u !in Fr && Adjacent(g, u, w)
      && (Simple(g) ==> sfs[w].dist == sfs[u].dist + EdgeLen(g, u, w))
  }

  /** The backpointer structure of shortest: only the start has none. */
  ghost predicate Chains(g: Graph, v: NodeId, sfs: map<NodeId, SF>, Fr: map<NodeId, int>, rank: map<NodeId, nat>)
  {
    && v in sfs && sfs[v].bkptr == None
    && Ranked(sfs, rank)
    && (forall w :: w in sfs && w != v ==> BackOk(g, sfs, Fr, w))
  }

  /** getPath(SFdata, end): the nodes met following the backpointers from
      end, in reverse order, so the list ends at end, starts at a node with
      no backpointer, and each node's predecessor in the list is its
      backpointer. */
  method GetPath(sfdata: map<NodeId, SF>, end: NodeId, ghost rank: map<NodeId, nat>) returns (path: seq<NodeId>)
    requires end in sfdata && Ranked(sfdata, rank)
    ensures |path| > 0 && path[|path| - 1] == end
    ensures forall i :: 0 <= i < |path| ==> path[i] in sfdata
    ensures sfdata[path[0]].bkptr == None
    ensures forall i :: 0 < i < |path| ==> sfdata[path[i]].bkptr == Some(path[i - 1])
  {
    path := [];
    var p := Some(end);
    while p.Some?
      invariant p.Some? ==> p.value in sfdata && p.value in rank
      invariant forall i :: 0 <= i < |path| ==> path[i] in sfdata
      invariant |path| == 0 ==> p == Some(end)
      invariant |path| > 0 ==> path[|path| - 1] == end && sfdata[path[0]].bkptr == p
      invariant forall i :: 0 < i < |path| ==> sfdata[path[i]].bkptr == Some(path[i - 1])
      decreases if p.Some? then rank[p.value] + 1 else 0
    {
      var n := p.value;
      assert n in rank;
      assert sfdata[n].bkptr.Some? ==> sfdata[n].bkptr.value in rank && rank[sfdata[n].bkptr.value] < rank[n];
      path := [n] + path;
      p := sfdata[n].bkptr;
    }
  }

  /** A list read back by getPath from a backpointer structure is a path
      from the start, and without parallel exits its weight is the recorded
      distance of its last node. */
  lemma {:induction false} ChainIsPath(g: Graph, v: NodeId, sfs: map<NodeId, SF>, Fr: map<NodeId, int>,
                                       rank: map<NodeId, nat>, path: seq<NodeId>, i: int)
    requires Chains(g, v, sfs, Fr, rank) && sfs[v].dist == 0
    requires forall x :: x in sfs ==> x in g
    requires |path| > 0
    requires forall j :: 0 <= j < |path| ==> path[j] in sfs
    requires sfs[path[0]].bkptr == None
    requires forall j :: 0 < j < |path| ==> sfs[path[j]].bkptr == Some(path[j - 1])
    requires 0 < i <= |path|
    ensures PathFrom(g, path[..i], v, path[i - 1])
    ensures Simple(g) ==> Weight(g, path[..i]) == sfs[path[i - 1]].dist
    decreases i
  {
    if i == 1 {
      assert !BackOk(g, sfs, Fr, path[0]);
    } else {
      ChainIsPath(g, v, sfs, Fr, rank, path, i - 1);
      var u, w := path[i - 2], path[i - 1];
      assert sfs[w].bkptr == Some(u);
      assert w != v;
      assert BackOk(g, sfs, Fr, w);
      assert path[..i] == path[..i - 1] + [w];
      ExtendPath(g, path[..i - 1], w);
    }
  }

  /** Replacing a node's record replaces its distance. */
  lemma DistsSet(sfs: map<NodeId, SF>, w: NodeId, s: SF)
    ensures Dists(sfs[w := s]) == Dists(sfs)[w := s.dist]
  {
  }

  /** Polling a node keeps the backpointer structure. */
  lemma ChainsPoll(g: Graph, v: NodeId, sfs: map<NodeId, SF>, Fr: map<NodeId, int>, rank: map<NodeId, nat>, f: NodeId)
    requires Chains(g, v, sfs, Fr, rank)
    ensures Chains(g, v, sfs, Fr - {f}, rank)
  {
    forall w | w in sfs && w != v
      ensures BackOk(g, sfs, Fr - {f}, w)
    {
      assert BackOk(g, sfs, Fr, w);
    }
  }

  /** Recording f as the backpointer of the destination w of f's exit k,
      when w is new or now strictly nearer, keeps the backpointer structure:
      no node points to w, which is either undiscovered or in the heap. */
  lemma ChainsRelax(g: Graph, v: NodeId, sfs: map<NodeId, SF>, Fr: map<NodeId, int>, rank: map<NodeId, nat>,
                    f: NodeId, k: int, w: NodeId, nd: int)
    requires Chains(g, v, sfs, Fr, rank)
    requires Dijkstra.Scanning(g, v, Dists(sfs), Fr, f, k) && k < |g[f]|
    requires w == g[f][k].dest && nd == sfs[f].dist + g[f][k].length
    requires w !in sfs || nd < sfs[w].dist
    ensures Chains(g, v, sfs[w := SF(nd, Some(f))], Fr[w := nd], rank[w := rank[f] + 1])
  {
    var D := Dists(sfs);
    Dijkstra.RelaxLower(g, v, D, Fr, f, k, w, nd);
    var sfs2, Fr2, rank2 := sfs[w := SF(nd, Some(f))], Fr[w := nd], rank[w := rank[f] + 1];
    assert w != f && w != v && w in g;
    IndexToFinds(g[f], w, k);
    assert Adjacent(g, f, w);
    if Simple(g) {
      IndexToUnique(g, f, k);
    }
    assert BackOk(g, sfs2, Fr2, w);
    forall x | x in sfs2 && x != v && x != w
      ensures BackOk(g, sfs2, Fr2, x)
    {
      assert BackOk(g, sfs, Fr, x);
    }
    assert Ranked(sfs2, rank2) by {
      forall x | x in sfs2 && x != w && sfs2[x].bkptr.Some?
        ensures sfs2[x].bkptr.value != w
      {
        assert BackOk(g, sfs, Fr, x);
      }
    }
  }

  /** pathSum(pa): the sum over consecutive nodes of the length of the edge
      getEdge picks (0 for an empty or one-node list); the first pair not
      joined by an edge raises IllegalArgumentException. */
  method PathSum(g: Graph, pa: seq<NodeId>) returns (r: Result<int>)
    requires forall i :: 0 <= i < |pa| ==> pa[i] in g
    ensures r.Ok? <==> pa == [] || IsPath(g, pa)
    ensures r.Err? ==> r.error == IllegalArgument
    ensures pa == [] ==> r == Ok(0)
    ensures r.Ok? && pa != [] ==> r.value == Weight(g, pa)
  {
    var v: Option<NodeId> := None;
    var sum := 0;
    var i := 0;
    while i < |pa|
      invariant 0 <= i <= |pa|
      invariant i == 0 ==> v == None && sum == 0
      invariant i > 0 ==> v == Some(pa[i - 1]) && IsPath(g, pa[..i]) && sum == Weight(g, pa[..i])
    {
      var n := pa[i];
      if v.Some? {
        var e := GetEdge(g[v.value], n);
        if e.Err? {
          assert !Adjacent(g, pa[i - 1], pa[i]);
          return Err(IllegalArgument);
        }
        assert pa[..i + 1] == pa[..i] + [n];
        ExtendPath(g, pa[..i], n);
        sum := sum + e.value.length;
      } else {
        assert pa[..i + 1] == [n];
      }
      v := Some(n);
      i := i + 1;
    }
    assert i > 0 ==> pa[..i] == pa;
    return Ok(sum);
  }

  /** The target end has just been polled from a frontier satisfying the
      invariant, and getPath read path back from end: it is a path from the
      start to end, of least weight when there are no parallel exits. */
  lemma Found(g: Graph, v: NodeId, end: NodeId, sfs: map<NodeId, SF>, Fr0: map<NodeId, int>,
              rank: map<NodeId, nat>, path: seq<NodeId>)
    requires Dijkstra.Inv(g, v, Dists(sfs), Fr0) && end in Fr0
    requires forall x :: x in Fr0 ==> Fr0[end] <= Fr0[x]
    requires Chains(g, v, sfs, Fr0 - {end}, rank)
    requires |path| > 0 && path[|path| - 1] == end
    requires forall i :: 0 <= i < |path| ==> path[i] in sfs
    requires sfs[path[0]].bkptr == None
    requires forall i :: 0 < i < |path| ==> sfs[path[i]].bkptr == Some(path[i - 1])
    ensures PathFrom(g, path, v, end) && Reachable(g, v, end)
    ensures v == end ==> path == [v]
    ensures Simple(g) ==> forall q :: PathFrom(g, q, v, end) ==> Weight(g, path) <= Weight(g, q)
  {
    var D := Dists(sfs);
    assert v in D && sfs[v].dist == D[v] == 0;
    forall x | x in sfs
      ensures x in g
    {
      assert x in D;
    }
    ChainIsPath(g, v, sfs, Fr0 - {end}, rank, path, |path|);
    assert path[..|path|] == path;
    assert PathFrom(g, path, v, end);
    assert Simple(g) ==> Weight(g, path) == D[end] == Fr0[end];
    forall q | PathFrom(g, q, v, end) && Simple(g)
      ensures Weight(g, path) <= Weight(g, q)
    {
      Dijkstra.LowerBound(g, v, D, Fr0, end, q);
    }
    if v == end {
      OnlyStart(sfs, v, path);
    }
  }

  /** The list getPath reads back from the start itself is the start alone:
      the start has no backpointer, every later node of the list has one. */
  lemma OnlyStart(sfs: map<NodeId, SF>, v: NodeId, path: seq<NodeId>)
    requires v in sfs && sfs[v].bkptr == None
    requires |path| > 0 && path[0] == v && path[|path| - 1] == v
    requires forall i :: 0 <= i < |path| ==> path[i] in sfs
    requires forall i :: 0 < i < |path| ==> sfs[path[i]].bkptr == Some(path[i - 1])
    ensures path == [v]
  {
    forall i | 0 < i < |path|
      ensures path[i] != v
    {
      assert sfs[path[i]].bkptr == Some(path[i - 1]);
    }
  }

  /** The inner loop of shortest: every exit of the polled node f is
      followed; a new neighbor is recorded and added to the heap, a neighbor
      now strictly nearer gets f as backpointer and its priority lowered. */
  method Scan(g: Graph, v: NodeId, F: PriorityHeap.Heap<NodeId>, sfs: map<NodeId, SF>, ghost rank: map<NodeId, nat>,
              f: NodeId) returns (sfs': map<NodeId, SF>, ghost rank': map<NodeId, nat>)
    requires F.Valid() && !F.isMaxHeap
    requires f in g && Dijkstra.Scanning(g, v, Dists(sfs), F.Contents(), f, 0)
    requires Chains(g, v, sfs, F.Contents(), rank)
    modifies F, F.b
    ensures F.Valid() && (F.b == old(F.b) || fresh(F.b))
    ensures Dijkstra.Inv(g, v, Dists(sfs'), F.Contents())
    ensures Chains(g, v, sfs', F.Contents(), rank')
    ensures Dijkstra.SettledSet(Dists(sfs'), F.Contents()) == Dijkstra.SettledSet(Dists(sfs), old(F.Contents()))
    ensures Dijkstra.Lowered(Dists(sfs), Dists(sfs'))
  {
    sfs', rank' := sfs, rank;
    var fDist := sfs[f].dist;
    ghost var S := Dijkstra.SettledSet(Dists(sfs), F.Contents());
    ghost var D, Fr := Dists(sfs), F.Contents();
    ghost var D0 := D;
    var k := 0;
    while k < |g[f]|
      invariant F.Valid() && (F.b == old(F.b) || fresh(F.b))
      invariant F.Contents() == Fr && Dists(sfs') == D
      invariant f in sfs' && sfs'[f].dist == fDist
      invariant Dijkstra.Scanning(g, v, D, Fr, f, k)
      invariant Chains(g, v, sfs', Fr, rank')
      invariant Dijkstra.SettledSet(D, Fr) == S
      invariant Dijkstra.Lowered(D0, D)
    {
      var e := g[f][k];
      var w := GetOther(e, f).value;
      var newWdist := fDist + e.length;
      assert w == g[f][k].dest && newWdist == D[f] + g[f][k].length;
      assert w in D <==> w in sfs';
      assert w in sfs' ==> D[w] == sfs'[w].dist;
      if w !in sfs' {
        Dijkstra.RelaxLower(g, v, D, Fr, f, k, w, newWdist);
        ChainsRelax(g, v, sfs', Fr, rank', f, k, w, newWdist);
        Dijkstra.LowerOne(D0, D, w, newWdist);
        DistsSet(sfs', w, SF(newWdist, Some(f)));
        sfs', rank' := sfs'[w := SF(newWdist, Some(f))], rank'[w := rank'[f] + 1];
        var added := F.Add(w, newWdist);
        assert added.Pass?;
        D, Fr := D[w := newWdist], Fr[w := newWdist];
      } else if newWdist < sfs'[w].dist {
        Dijkstra.RelaxLower(g, v, D, Fr, f, k, w, newWdist);
        ChainsRelax(g, v, sfs', Fr, rank', f, k, w, newWdist);
        Dijkstra.LowerOne(D0, D, w, newWdist);
        DistsSet(sfs', w, SF(newWdist, Some(f)));
        sfs', rank' := sfs'[w := SF(newWdist, Some(f))], rank'[w := rank'[f] + 1];
        var updated := F.UpdatePriority(w, newWdist);
        assert updated.Pass?;
        D, Fr := D[w := newWdist], Fr[w := newWdist];
      } else {
        Dijkstra.RelaxKeep(g, v, D, Fr, f, k, w, newWdist);
      }
      k := k + 1;
    }
    Dijkstra.Scanned(g, v, D, Fr, f);
  }

  /** shortest(v, end): a path from v to end of least weight (for graphs
      without parallel exits, as every cavern is), or the empty list exactly
      when end cannot be reached; shortest(v, v) is [v]. */
  method Shortest(g: Graph, v: NodeId, end: NodeId) returns (path: seq<NodeId>)
    requires WellFormed(g) && v in g
    ensures path != [] ==> PathFrom(g, path, v, end)
    ensures path == [] <==> !Reachable(g, v, end)
    ensures v == end ==> path == [v]
    ensures path != [] && Simple(g) ==> forall q :: PathFrom(g, q, v, end) ==> Weight(g, path) <= Weight(g, q)
  {
    var F := new PriorityHeap.Heap<NodeId>(false);
    var sfs: map<NodeId, SF> := map[];
    var added := F.Add(v, 0);
    sfs := sfs[v := SF(0, None)];
    ghost var rank: map<NodeId, nat> := map[v := 0];
    Dijkstra.Start(g, v);
    assert Dists(sfs) == map[v := 0];
    ghost var D, Fr := Dists(sfs), F.Contents();
    while F.Size() != 0
      invariant fresh(F) && fresh(F.b) && F.Valid() && !F.isMaxHeap
      invariant F.Contents() == Fr && Dists(sfs) == D
      invariant Dijkstra.Inv(g, v, D, Fr)
      invariant Chains(g, v, sfs, Fr, rank)
      invariant end !in Dijkstra.SettledSet(D, Fr)
      decreases |g.Keys - Dijkstra.SettledSet(D, Fr)|
    {
      var polled := F.Poll();
      var f := polled.value;
      Dijkstra.Poll(g, v, D, Fr, f);
      ChainsPoll(g, v, sfs, Fr, rank, f);
      if f == end {
        path := GetPath(sfs, end, rank);
        Found(g, v, end, sfs, Fr, rank, path);
        return;
      }
      ghost var S := Dijkstra.SettledSet(D, Fr);
      Dijkstra.SettleCount(g, S, f);
      Fr := Fr - {f};
      sfs, rank := Scan(g, v, F, sfs, rank, f);
      D, Fr := Dists(sfs), F.Contents();
    }
    Dijkstra.Unreachable(g, v, end, Dists(sfs));
    path := [];
  }
}
