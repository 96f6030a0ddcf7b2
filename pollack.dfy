/** app/Pollack.java: the hunter. During the hunt it runs a depth-first
    search that always steps to the unvisited neighbour closest to the orb;
    during the scram it walks a shortest path to the exit. Its copies of
    shortest, getPath and pathSum are Paths.Shortest, Paths.GetPath and
    Paths.PathSum. The two driving methods of GameState that hand over to the
    hunter, hunt() and scram(), are here as RunHunt and RunScram. */
module Hunters {
  import opened Wrappers
  import opened Edges
  import opened Graphs
  import JavaInt
  import Caverns
  import Games
  import Paths
  import opened NodeStatuses

  /** A neighbour dfs may step to: not visited, and closer to the orb than
      the starting value Integer.MAX_VALUE of the running minimum. */
  predicate Eligible(s: NodeStatus, visited: set<NodeId>)
  {
    s.id !in visited && s.distance < JavaInt.INT_MAX
  }

  /** ns[k] is eligible, no eligible status among the first n is closer to
      the orb, and every eligible status before k is strictly farther. */
  predicate FirstBestIn(ns: seq<NodeStatus>, visited: set<NodeId>, k: int, n: int)
    requires 0 <= n <= |ns|
  {
    && 0 <= k < n
    && Eligible(ns[k], visited)
    && (forall j :: 0 <= j < n && Eligible(ns[j], visited) ==> ns[k].distance <= ns[j].distance)
    && (forall j :: 0 <= j < k && Eligible(ns[j], visited) ==> ns[k].distance < ns[j].distance)
  }

  /** The status dfs picks: the first of the eligible ones at least distance. */
  predicate FirstBest(ns: seq<NodeStatus>, visited: set<NodeId>, k: int)
  {
    FirstBestIn(ns, visited, k, |ns|)
  }

  /** At most one status is the first best, so the choice is determined. */
  lemma FirstBestUnique(ns: seq<NodeStatus>, visited: set<NodeId>, k1: int, k2: int)
    requires FirstBest(ns, visited, k1) && FirstBest(ns, visited, k2)
    ensures k1 == k2
  {
  }

  /** The inner loop of dfs (Pollack.java:76-86): the id of the first
      unvisited neighbour at strictly least distance, or the sentinel 0 when
      there is none. */
  method ChooseNext(ns: seq<NodeStatus>, visited: set<NodeId>) returns (wid: NodeId)
    ensures (forall k :: 0 <= k < |ns| ==> !Eligible(ns[k], visited)) ==> wid == 0
    ensures (exists k :: 0 <= k < |ns| && Eligible(ns[k], visited)) ==>
      exists k :: FirstBest(ns, visited, k) && wid == ns[k].id
  {
    wid := 0;
    var shortestDist := JavaInt.INT_MAX;
    ghost var best := -1;
    var i := 0;
    while i < |ns|
      invariant 0 <= i <= |ns|
      invariant best == -1 ==> wid == 0 && shortestDist == JavaInt.INT_MAX
      invariant best == -1 ==> forall j :: 0 <= j < i ==> !Eligible(ns[j], visited)
      invariant best != -1 ==> FirstBestIn(ns, visited, best, i)
      invariant best != -1 ==> wid == ns[best].id && shortestDist == ns[best].distance
    {
      if ns[i].id !in visited {
        if ns[i].distance < shortestDist {
          shortestDist := ns[i].distance;
          wid := ns[i].id;
          best := i;
        }
      }
      i := i + 1;
    }
  }

  /** The destinations of a list of exits. */
  ghost function DestSet(es: seq<Edge>): (r: set<NodeId>)
    ensures |r| <= |es|
    ensures forall m :: m in r <==> exists k :: 0 <= k < |es| && es[k].dest == m
  {
    if es == [] then {}
    else
      var rest := DestSet(es[1..]);
      forall m | m in rest
        ensures exists k :: 0 <= k < |es| && es[k].dest == m
      {
        var k :| 0 <= k < |es| - 1 && es[1..][k].dest == m;
        assert es[k + 1].dest == m;
      }
      forall m | exists k :: 0 <= k < |es| && es[k].dest == m
        ensures m == es[0].dest || m in rest
      {
        var k :| 0 <= k < |es| && es[k].dest == m;
        if k > 0 {
          assert es[1..][k - 1].dest == m;
        }
      }
      {es[0].dest} + rest
  }

  /** The neighbours of node id that dfs still has to try once it has the
      visited set vis: unvisited, with a distance dfs would accept. */
  ghost function Pending(gs: Games.GameState, id: NodeId, vis: set<NodeId>): set<NodeId>
    requires gs.huntTarget in gs.huntTiles && id in gs.huntGraph
  {
    set m | m in DestSet(gs.huntGraph[id]) && m !in vis && m in gs.huntTiles &&
      gs.DistanceTo(gs.huntTiles[m].row, gs.huntTiles[m].col) < JavaInt.INT_MAX
  }

  /** A subset without some element of the larger set is strictly smaller. */
  lemma {:induction false} SubsetSmaller<T>(a: set<T>, b: set<T>, x: T)
    requires a <= b && x in b && x !in a
    ensures |a| < |b|
    decreases |a|
  {
    if a == {} {
      assert x in b;
    } else {
      var y :| y in a;
      SubsetSmaller(a - {y}, b - {y}, x);
    }
  }

  /** The exit k of node u leads to a node adjacent to u. */
  lemma ExitAdjacent(g: Graph, u: NodeId, k: int)
    requires u in g && 0 <= k < |g[u]|
    ensures Adjacent(g, u, g[u][k].dest)
  {
    var r := IndexTo(g[u], g[u][k].dest);
  }

  /** In a graph whose every exit has a reverse of the same length, every
      step can be retraced. */
  lemma SymmetricBack(g: Graph, u: NodeId, w: NodeId)
    requires Caverns.Symmetric(g) && Adjacent(g, u, w)
    ensures Adjacent(g, w, u)
  {
    var e := g[u][IndexTo(g[u], w)];
    assert e in g[u];
    var back := Edge(w, u, e.length);
    assert back in g[w];
    var j :| 0 <= j < |g[w]| && g[w][j] == back;
    ExitAdjacent(g, w, j);
  }

  /** dfs(t, visited) (Pollack.java:70-97): marks the position visited, stops
      at once on the orb, and otherwise tries the neighbours, each time
      stepping to the first unvisited one closest to the orb, searching from
      there, stopping if that reached the orb and stepping back otherwise;
      it returns in place when no unvisited neighbour is left (the wid == 0
      sentinel). It returns normally either on the orb or where it started,
      every step retraces when the graph is symmetric, and a normal return
      off the orb leaves every acceptable neighbour visited. */
  method Dfs(gs: Games.GameState, visited: set<NodeId>) returns (o: Outcome, visited': set<NodeId>)
    requires gs.Valid() && gs.stage == Games.HUNT
    modifies gs
    decreases |gs.huntGraph.Keys - (visited + {gs.position})|
    ensures gs.Valid() && gs.stage == Games.HUNT
    ensures visited + {old(gs.position)} <= visited'
    ensures gs.stepsRemaining == old(gs.stepsRemaining) && gs.goldCollected == old(gs.goldCollected) && gs.SameRecords()
    ensures gs.stepsTaken >= old(gs.stepsTaken)
    ensures old(gs.DistanceToOrb()) == Ok(0) ==>
      o.Pass? && gs.position == old(gs.position) && gs.stepsTaken == old(gs.stepsTaken) && visited' == visited + {gs.position}
    ensures o.Pass? ==> gs.position == old(gs.position) || gs.DistanceToOrb() == Ok(0)
    ensures o.Fail? ==> o.error == IllegalArgument
    ensures Caverns.Symmetric(gs.huntGraph) ==> o.Pass?
    ensures o.Pass? && gs.DistanceToOrb() != Ok(0) && 0 !in gs.huntGraph ==>
      Pending(gs, old(gs.position), visited') == {}
  {
    var id := gs.position;
    visited' := visited + {id};
    var d := gs.DistanceToOrb();
    if d == Ok(0) {
      return Pass, visited';
    }
    var count := NeighborCount(gs);
    var k := 0;
    PendingBound(gs, id, visited');
    while k < count
      invariant gs.Valid() && gs.stage == Games.HUNT && gs.position == id
      invariant visited + {id} <= visited'
      invariant gs.stepsRemaining == old(gs.stepsRemaining) && gs.goldCollected == old(gs.goldCollected) && gs.SameRecords()
      invariant gs.stepsTaken >= old(gs.stepsTaken)
      invariant |Pending(gs, id, visited')| <= count - k
      invariant gs.DistanceToOrb() != Ok(0)
    {
      var wid := Advance(gs, visited');
      if wid == 0 {
        return Pass, visited';
      }
      ghost var before := visited';
      SubsetSmaller(gs.huntGraph.Keys - (before + {wid}), gs.huntGraph.Keys - (visited + {id}), wid);
      o, visited' := Dfs(gs, visited');
      if o.Fail? {
        return;
      }
      var d2 := gs.DistanceToOrb();
      if d2 == Ok(0) {
        return;
      }
      var back := StepBack(gs, id);
      if back.Fail? {
        return back, visited';
      }
      PendingShrinks(gs, id, before, visited', wid);
      k := k + 1;
    }
    o := Pass;
  }

  /** The number of statuses neighbors() returns in the hunt stage: one per
      distinct neighbour of the position. */
  method NeighborCount(gs: Games.GameState) returns (count: int)
    requires gs.Valid() && gs.stage == Games.HUNT
    ensures count == |Games.NeighborIds(gs.huntGraph[gs.position])|
  {
    var ns := gs.Neighbors();
    count := |ns.value|;
  }

  /** The step back of dfs (Pollack.java:93) from the neighbour just
      explored to the node id it was entered from: it fails, with
      IllegalArgumentException, only when no edge leads back, which cannot
      happen when every edge has its reverse. */
  method StepBack(gs: Games.GameState, id: NodeId) returns (back: Outcome)
    requires gs.Valid() && gs.stage == Games.HUNT
    modifies gs
    ensures gs.Valid() && gs.stage == Games.HUNT
    ensures gs.stepsRemaining == old(gs.stepsRemaining) && gs.goldCollected == old(gs.goldCollected) && gs.SameRecords()
    ensures gs.stepsTaken >= old(gs.stepsTaken)
    ensures back.Pass? ==> gs.position == id
    ensures back.Fail? ==> back.error == IllegalArgument
    ensures Caverns.Symmetric(gs.huntGraph) && Adjacent(gs.huntGraph, id, old(gs.position)) ==> back.Pass?
  {
    if Caverns.Symmetric(gs.huntGraph) && Adjacent(gs.huntGraph, id, gs.position) {
      SymmetricBack(gs.huntGraph, id, gs.position);
    }
    back := gs.MoveToId(id);
  }

  /** One try of dfs's outer loop up to the step out (Pollack.java:76-90):
      from a position off the orb, the neighbour ChooseNext picks among the
      current neighbours, and the step to it; 0, with no step, when none is
      left. */
  method Advance(gs: Games.GameState, vis: set<NodeId>) returns (wid: NodeId)
    requires gs.Valid() && gs.stage == Games.HUNT
    modifies gs
    ensures gs.Valid() && gs.stage == Games.HUNT
    ensures gs.stepsRemaining == old(gs.stepsRemaining) && gs.goldCollected == old(gs.goldCollected) && gs.SameRecords()
    ensures wid == 0 ==> gs.position == old(gs.position) && gs.stepsTaken == old(gs.stepsTaken)
    ensures wid == 0 && 0 !in gs.huntGraph ==> Pending(gs, old(gs.position), vis) == {}
    ensures wid != 0 ==> gs.position == wid && gs.stepsTaken == old(gs.stepsTaken) + 1
    ensures wid != 0 ==> Adjacent(gs.huntGraph, old(gs.position), wid)
    ensures wid != 0 ==> wid !in vis && wid in gs.huntGraph && wid in Pending(gs, old(gs.position), vis)
  {
    var ns := gs.Neighbors();
    wid := ChooseNext(ns.value, vis);
    if wid == 0 {
      NoneLeft(gs, gs.position, vis, ns.value);
      return;
    }
    ghost var k := Picked(gs, gs.position, vis, ns.value, wid);
    var moved := gs.MoveToId(wid);
    assert moved.Pass?;
  }

  /** At most one node per neighbour is pending. */
  lemma PendingBound(gs: Games.GameState, id: NodeId, vis: set<NodeId>)
    requires gs.huntTarget in gs.huntTiles && id in gs.huntGraph
    ensures |Pending(gs, id, vis)| <= |Games.NeighborIds(gs.huntGraph[id])|
  {
    var ns := Games.NeighborIds(gs.huntGraph[id]);
    forall m | m in Pending(gs, id, vis)
      ensures m in ElementSet(ns)
    {
      var k :| 0 <= k < |gs.huntGraph[id]| && gs.huntGraph[id][k].dest == m;
    }
    ElementSetCard(ns);
    SubsetCard(Pending(gs, id, vis), ElementSet(ns));
  }

  /** The elements of a sequence. */
  ghost function ElementSet<T>(s: seq<T>): set<T>
  {
    set x | x in s
  }

  /** A sequence has at most as many distinct elements as it is long. */
  lemma {:induction false} ElementSetCard<T>(s: seq<T>)
    ensures |ElementSet(s)| <= |s|
  {
    if s != [] {
      ElementSetCard(s[..|s| - 1]);
      assert s == s[..|s| - 1] + [s[|s| - 1]];
      assert ElementSet(s) == ElementSet(s[..|s| - 1]) + {s[|s| - 1]};
    }
  }

  /** A subset is no larger. */
  lemma {:induction false} SubsetCard<T>(a: set<T>, b: set<T>)
    requires a <= b
    ensures |a| <= |b|
    decreases |a|
  {
    if a != {} {
      var y :| y in a;
      SubsetCard(a - {y}, b - {y});
    }
  }

  /** When ChooseNext finds no neighbour and no node has id 0, nothing is
      pending. */
  lemma NoneLeft(gs: Games.GameState, id: NodeId, vis: set<NodeId>, ns: seq<NodeStatus>)
    requires gs.Valid() && gs.stage == Games.HUNT && id == gs.position
    requires |ns| == |Games.NeighborIds(gs.huntGraph[id])|
    requires forall k :: 0 <= k < |ns| ==> var m := Games.NeighborIds(gs.huntGraph[id])[k];
      m in gs.huntTiles && ns[k] == NodeStatus(m, gs.DistanceTo(gs.huntTiles[m].row, gs.huntTiles[m].col))
    requires (exists k :: 0 <= k < |ns| && Eligible(ns[k], vis)) ==> exists k :: FirstBest(ns, vis, k) && 0 == ns[k].id
    ensures 0 !in gs.huntGraph ==> Pending(gs, id, vis) == {}
  {
    if 0 !in gs.huntGraph {
      var nb := Games.NeighborIds(gs.huntGraph[id]);
      forall k | 0 <= k < |ns|
        ensures ns[k].id != 0
      {
        assert nb[k] in nb;
        var j :| 0 <= j < |gs.huntGraph[id]| && gs.huntGraph[id][j].dest == nb[k];
        Games.DestIn(gs.huntGraph, id, j);
      }
      forall k | 0 <= k < |ns|
        ensures !Eligible(ns[k], vis)
      {
        if Eligible(ns[k], vis) {
          assert false;
        }
      }
      forall m | m in DestSet(gs.huntGraph[id])
        ensures m !in Pending(gs, id, vis)
      {
        var j :| 0 <= j < |gs.huntGraph[id]| && gs.huntGraph[id][j].dest == m;
        assert m in nb;
        var k :| 0 <= k < |nb| && nb[k] == m;
        assert !Eligible(ns[k], vis);
      }
    }
  }

  /** The neighbour ChooseNext picks is an unvisited, pending neighbour of
      the position, adjacent to it; the result is the index of an exit to
      it. */
  lemma Picked(gs: Games.GameState, id: NodeId, vis: set<NodeId>, ns: seq<NodeStatus>, wid: NodeId) returns (k: int)
    requires gs.Valid() && gs.stage == Games.HUNT && id == gs.position && wid != 0
    requires |ns| == |Games.NeighborIds(gs.huntGraph[id])|
    requires forall k :: 0 <= k < |ns| ==> var m := Games.NeighborIds(gs.huntGraph[id])[k];
      m in gs.huntTiles && ns[k] == NodeStatus(m, gs.DistanceTo(gs.huntTiles[m].row, gs.huntTiles[m].col))
    requires (forall k :: 0 <= k < |ns| ==> !Eligible(ns[k], vis)) ==> wid == 0
    requires (exists k :: 0 <= k < |ns| && Eligible(ns[k], vis)) ==> exists k :: FirstBest(ns, vis, k) && wid == ns[k].id
    ensures 0 <= k < |gs.huntGraph[id]| && gs.huntGraph[id][k].dest == wid
    ensures wid !in vis && wid in gs.huntGraph && wid in Pending(gs, id, vis)
    ensures Adjacent(gs.huntGraph, id, wid)
  {
    var i :| FirstBest(ns, vis, i) && wid == ns[i].id;
    var nb := Games.NeighborIds(gs.huntGraph[id]);
    assert nb[i] in nb;
    k :| 0 <= k < |gs.huntGraph[id]| && gs.huntGraph[id][k].dest == wid;
    Games.DestIn(gs.huntGraph, id, k);
    ExitAdjacent(gs.huntGraph, id, k);
    assert wid in DestSet(gs.huntGraph[id]);
  }

  /** Once the picked neighbour is visited, one fewer neighbour is pending. */
  lemma PendingShrinks(gs: Games.GameState, id: NodeId, before: set<NodeId>, after: set<NodeId>, wid: NodeId)
    requires gs.huntTarget in gs.huntTiles && id in gs.huntGraph
    requires before + {wid} <= after && wid in Pending(gs, id, before)
    ensures |Pending(gs, id, after)| < |Pending(gs, id, before)|
  {
    SubsetSmaller(Pending(gs, id, after), Pending(gs, id, before), wid);
  }

  /** huntOrb(state): dfs from the entrance with nothing visited. */
  method HuntOrb(gs: Games.GameState) returns (o: Outcome)
    requires gs.Valid() && gs.stage == Games.HUNT
    modifies gs
    ensures gs.Valid() && gs.stage == Games.HUNT
    ensures gs.stepsRemaining == old(gs.stepsRemaining) && gs.goldCollected == old(gs.goldCollected) && gs.SameRecords()
    ensures old(gs.DistanceToOrb()) == Ok(0) ==> o.Pass? && gs.position == old(gs.position)
    ensures o.Pass? ==> gs.position == old(gs.position) || gs.DistanceToOrb() == Ok(0)
    ensures o.Fail? ==> o.error == IllegalArgument
    ensures Caverns.Symmetric(gs.huntGraph) ==> o.Pass?
  {
    var visited;
    o, visited := Dfs(gs, {});
  }

  /** The weight of a path grows by one edge per node taken. */
  lemma WeightStep(g: Graph, p: seq<NodeId>, j: int)
    requires IsPath(g, p) && 0 < j < |p|
    ensures IsPath(g, p[..j]) && IsPath(g, p[..j + 1])
    ensures Weight(g, p[..j + 1]) == Weight(g, p[..j]) + EdgeLen(g, p[j - 1], p[j])
  {
    assert IsPath(g, p[..j]);
    assert p[..j + 1][..j] == p[..j];
  }

  /** One state.moveTo(i) of scram (Pollack.java:135) to a neighbour of the
      position: it succeeds, lowering the budget by the edge length, exactly
      when the budget covers that edge, and fails with OutOfSteps otherwise. */
  method StepTo(gs: Games.GameState, n: NodeId) returns (moved: Outcome)
    requires gs.Valid() && gs.stage == Games.SCRAM && Adjacent(gs.scramGraph, gs.position, n)
    modifies gs, set m | m in gs.scramTiles :: gs.scramTiles[m]
    ensures gs.Valid() && gs.stage == Games.SCRAM
    ensures moved.Pass? <==> EdgeLen(gs.scramGraph, old(gs.position), n) <= old(gs.stepsRemaining)
    ensures moved.Fail? ==> moved.error == OutOfSteps
    ensures moved.Pass? ==> gs.position == n
    ensures moved.Pass? ==> gs.stepsRemaining == old(gs.stepsRemaining) - EdgeLen(gs.scramGraph, old(gs.position), n)
    ensures gs.goldCollected >= old(gs.goldCollected) && gs.SameRecords()
  {
    moved := gs.MoveToNode(n);
  }

  /** The loop of scram(state): each node of p after the first, moved to in
      turn. It fails only by running out of steps, and it does not when the
      budget covers the weight of p; on success the hunter stands on the
      last node of p and has spent exactly that weight. */
  method Walk(gs: Games.GameState, p: seq<NodeId>) returns (o: Outcome)
    requires gs.Valid() && gs.stage == Games.SCRAM
    requires IsPath(gs.scramGraph, p) && p != [] && p[0] == gs.position
    modifies gs, set n | n in gs.scramTiles :: gs.scramTiles[n]
    ensures gs.Valid() && gs.stage == Games.SCRAM
    ensures o.Fail? ==> o.error == OutOfSteps
    ensures o.Pass? ==> gs.position == p[|p| - 1]
    ensures o.Pass? ==> gs.stepsRemaining == old(gs.stepsRemaining) - Weight(gs.scramGraph, p)
    ensures gs.goldCollected >= old(gs.goldCollected) && gs.SameRecords()
    ensures Weight(gs.scramGraph, p) <= old(gs.stepsRemaining) ==> o.Pass?
  {
    ghost var budget := gs.stepsRemaining;
    ghost var affordable := Weight(gs.scramGraph, p) <= budget;
    var j := 1;
    while j < |p|
      invariant 1 <= j <= |p|
      invariant gs.Valid() && gs.stage == Games.SCRAM && gs.position == p[j - 1]
      invariant IsPath(gs.scramGraph, p[..j])
      invariant gs.stepsRemaining == budget - Weight(gs.scramGraph, p[..j])
      invariant gs.goldCollected >= old(gs.goldCollected) && gs.SameRecords()
    {
      WeightStep(gs.scramGraph, p, j);
      if affordable {
        WeightPrefix(gs.scramGraph, p, j + 1);
      }
      var moved := StepTo(gs, p[j]);
      if moved.Fail? {
        return moved;
      }
      j := j + 1;
    }
    assert p[..|p|] == p;
    o := Pass;
  }

  /** scram(state) (Pollack.java:125-138): the shortest path from the
      position to the exit, without its first node (the position), walked
      node by node. Removing the first node of the empty path, when the exit
      cannot be reached, throws IndexOutOfBoundsException; a move longer than
      the remaining budget throws OutOfStepsException. On success the hunter
      stands on the exit and has spent exactly the weight of the path
      walked; when exits are unique per neighbour and the budget covers some
      path to the exit, it always succeeds. */
  method Scram(gs: Games.GameState) returns (o: Outcome, ghost path: seq<NodeId>)
    requires gs.Valid() && gs.stage == Games.SCRAM
    modifies gs, set n | n in gs.scramTiles :: gs.scramTiles[n]
    ensures gs.Valid() && gs.stage == Games.SCRAM
    ensures o == Fail(IndexOutOfBounds) <==> !Reachable(gs.scramGraph, old(gs.position), gs.scramTarget)
    ensures o.Fail? ==> o.error == IndexOutOfBounds || o.error == OutOfSteps
    ensures o.Pass? ==> gs.position == gs.scramTarget
    ensures o.Pass? ==> PathFrom(gs.scramGraph, path, old(gs.position), gs.scramTarget)
    ensures o.Pass? ==> gs.stepsRemaining == old(gs.stepsRemaining) - Weight(gs.scramGraph, path)
    ensures gs.goldCollected >= old(gs.goldCollected) && gs.SameRecords()
    ensures Simple(gs.scramGraph) &&
      (exists q :: PathFrom(gs.scramGraph, q, old(gs.position), gs.scramTarget) && Weight(gs.scramGraph, q) <= old(gs.stepsRemaining))
      ==> o.Pass?
  {
    var start := gs.CurrentNode();
    var exit := gs.GetExit();
    var p := Paths.Shortest(gs.scramGraph, start.value, exit.value);
    path := p;
    if |p| == 0 {
      return Fail(IndexOutOfBounds), path;
    }
    o := Walk(gs, p);
  }

  /** hunt() (GameState.java:231-260): the reset of the hunt stage, then the
      hunter's huntOrb; the hunt succeeds exactly when the hunter returns
      normally on the orb's node, and errs when it throws. When the orb
      cannot be reached the reset itself throws IllegalStateException. */
  method RunHunt(gs: Games.GameState) returns (o: Outcome)
    requires gs.Valid()
    modifies gs
    ensures gs.Valid() && gs.stage == Games.HUNT
    ensures o.Fail? <==> !Reachable(gs.huntGraph, gs.huntEntrance, gs.huntTarget)
    ensures o.Pass? && gs.huntSucceeded ==> gs.position == gs.huntTarget
    ensures o.Pass? && Caverns.Symmetric(gs.huntGraph) ==>
      gs.huntErrored == old(gs.huntErrored) && (gs.huntSucceeded <==> gs.position == gs.huntTarget)
    ensures o.Pass? && gs.huntSucceeded ==> gs.DistanceToOrb() == Ok(0)
  {
    o := gs.StartHunt();
    if o.Fail? {
      return;
    }
    var hunted := HuntOrb(gs);
    gs.EndHunt(hunted);
  }

  /** scram() (GameState.java:287-326): the reset of the scram stage with
      the budget stepsToScram, then the hunter's scram. The scram succeeds
      exactly when the hunter returns normally on the exit; running out of
      steps is not an error of the hunter, any other exception is. When the
      budget covers the shortest distance, exits are unique per neighbour
      and the exit can be reached, it succeeds. */
  method RunScram(gs: Games.GameState, stepsToScram: int) returns (o: Outcome)
    requires gs.Valid() && 0 <= stepsToScram
    modifies gs, set n | n in gs.scramTiles :: gs.scramTiles[n]
    ensures gs.Valid() && gs.stage == Games.SCRAM
    ensures o.Fail? <==> !Reachable(gs.scramGraph, gs.scramStart, gs.scramTarget)
    ensures o.Pass? && !old(gs.scramSucceeded) && gs.scramSucceeded ==> gs.position == gs.scramTarget
    ensures o.Pass? && Simple(gs.scramGraph) && gs.minScramDistance <= stepsToScram ==> gs.scramSucceeded
  {
    o := gs.StartScram(stepsToScram);
    if o.Fail? {
      return;
    }
    if Simple(gs.scramGraph) && gs.minScramDistance <= stepsToScram {
      ghost var q :| PathFrom(gs.scramGraph, q, gs.scramStart, gs.scramTarget) && Weight(gs.scramGraph, q) == gs.minScramDistance;
      assert Weight(gs.scramGraph, q) <= gs.stepsRemaining;
    }
    var scrammed, path := Scram(gs);
    gs.EndScram(scrammed);
  }
}
