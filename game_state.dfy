/** game/GameState.java: the state of one game, made of a hunt stage, in
    which the hunter walks towards the orb by node ids and sees only the
    Manhattan distance of each neighbour to the orb, and a scram stage, in
    which the hunter walks the whole scram cavern to its exit within a step
    budget, picking up gold. The two caverns are given as their graphs and
    the tiles of their nodes; loading or generating them, the GUI, the
    threads and the floating-point score are not part of this model. */
module Games {
  import opened Wrappers
  import opened Edges
  import opened Graphs
  import Tiles
  import Caverns
  import NodeStatuses
  import JavaInt
  import Nodes

  datatype Stage = HUNT | SCRAM

  class GameState {
    const huntGraph: Graph
    const scramGraph: Graph
    /** The tile of every node of each cavern. */
    const huntTiles: map<NodeId, Tiles.Tile>
    const scramTiles: map<NodeId, Tiles.Tile>
    const huntEntrance: NodeId
    /** The node of the orb. */
    const huntTarget: NodeId
    /** The exit of the scram cavern. */
    const scramTarget: NodeId
    /** The node of the scram cavern at the orb's row and column, where the
        scram stage starts (scramCavern.getNodeAt). */
    const scramStart: NodeId

    var position: NodeId
    var stepsTaken: int
    var stepsRemaining: int
    var goldCollected: int
    var stage: Stage
    var huntSucceeded: bool
    var scramSucceeded: bool
    var huntErrored: bool
    var scramErrored: bool
    var minHuntDistance: int
    var minScramDistance: int

    /** The tile lies at the orb's row and column. */
    predicate AtOrb(t: Tiles.Tile)
      requires huntTarget in huntTiles
    {
      t.row == huntTiles[huntTarget].row && t.col == huntTiles[huntTarget].col
    }

    /** Both caverns are well formed and every node has a tile; the scram
        stage starts at the orb's row and column; the position is a node of
        the cavern of the current stage; steps and gold are never negative. */
    ghost predicate Valid()
      reads this
    {
      && WellFormed(huntGraph) && WellFormed(scramGraph)
      && huntGraph.Keys <= huntTiles.Keys && scramGraph.Keys <= scramTiles.Keys
      && huntEntrance in huntGraph && huntTarget in huntTiles && scramStart in scramGraph
      && AtOrb(scramTiles[scramStart])
      && (stage == HUNT ==> position in huntGraph)
      && (stage == SCRAM ==> position in scramGraph)
      && 0 <= stepsTaken && 0 <= stepsRemaining && 0 <= goldCollected
    }

    /** GameState(...): the hunt stage at the hunt entrance, no step taken,
        Integer.MAX_VALUE steps remaining and no gold. */
    constructor (hg: Graph, sg: Graph, ht: map<NodeId, Tiles.Tile>, st: map<NodeId, Tiles.Tile>,
                 entrance: NodeId, orb: NodeId, exit: NodeId, start: NodeId)
      requires WellFormed(hg) && WellFormed(sg) && hg.Keys <= ht.Keys && sg.Keys <= st.Keys
      requires entrance in hg && orb in ht && start in sg
      requires st[start].row == ht[orb].row && st[start].col == ht[orb].col
      ensures Valid()
      ensures huntGraph == hg && scramGraph == sg && huntTiles == ht && scramTiles == st
      ensures huntEntrance == entrance && huntTarget == orb && scramTarget == exit && scramStart == start
      ensures position == entrance && stage == HUNT
      ensures stepsTaken == 0 && stepsRemaining == JavaInt.INT_MAX && goldCollected == 0
      ensures !huntSucceeded && !scramSucceeded && !huntErrored && !scramErrored
    {
      huntGraph, scramGraph, huntTiles, scramTiles := hg, sg, ht, st;
      huntEntrance, huntTarget, scramTarget, scramStart := entrance, orb, exit, start;
      position := entrance;
      stepsTaken, stepsRemaining, goldCollected := 0, JavaInt.INT_MAX, 0;
      stage := HUNT;
      huntSucceeded, scramSucceeded, huntErrored, scramErrored := false, false, false, false;
      minHuntDistance, minScramDistance := 0, 0;
    }

    /** computeDistanceToTarget(row, col): the Manhattan distance from
        (row, col) to the orb's tile, never negative and 0 exactly at the
        orb's row and column. */
    function DistanceTo(row: int, col: int): (r: int)
      requires huntTarget in huntTiles
      ensures r >= 0
      ensures r == 0 <==> row == huntTiles[huntTarget].row && col == huntTiles[huntTarget].col
    {
      Abs(row - huntTiles[huntTarget].row) + Abs(col - huntTiles[huntTarget].col)
    }

    /** One step in a grid direction changes the Manhattan distance to the
        orb by exactly one. */
    lemma DistanceStep(row: int, col: int, d: Caverns.Direction)
      requires huntTarget in huntTiles
      ensures var r2 := DistanceTo(row + Caverns.DRow(d), col + Caverns.DCol(d));
        r2 == DistanceTo(row, col) + 1 || r2 == DistanceTo(row, col) - 1
    {
    }

    /** In the hunt stage every exit of the position leads to a node of the
        hunt cavern, which has a tile. */
    lemma DestHasTile(k: int)
      requires Valid() && stage == HUNT && 0 <= k < |huntGraph[position]|
      ensures huntGraph[position][k].dest in huntGraph && huntGraph[position][k].dest in huntTiles
    {
      DestIn(huntGraph, position, k);
    }

    /** currentLocation(): the id of the position; IllegalStateException
        outside the hunt stage. */
    function CurrentLocation(): (r: Result<NodeId>)
      reads this
      ensures r.Ok? <==> stage == HUNT
      ensures r.Ok? ==> r.value == position
      ensures r.Err? ==> r.error == IllegalState
    {
      if stage != HUNT then Err(IllegalState) else Ok(position)
    }

    /** distanceToOrb(): the Manhattan distance from the position's tile to
        the orb, 0 exactly on the orb's tile; IllegalStateException outside
        the hunt stage. */
    function DistanceToOrb(): (r: Result<int>)
      reads this
      requires Valid()
      ensures r.Ok? <==> stage == HUNT
      ensures r.Err? ==> r.error == IllegalState
      ensures r.Ok? ==> r.value >= 0
      ensures r.Ok? ==> (r.value == 0 <==>
        huntTiles[position].row == huntTiles[huntTarget].row && huntTiles[position].col == huntTiles[huntTarget].col)
    {
      if stage != HUNT then Err(IllegalState)
      else Ok(DistanceTo(huntTiles[position].row, huntTiles[position].col))
    }

    /** neighbors(): a status for each neighbour of the position, each
        neighbour once and in the order its first exit lists it, carrying the
        neighbour's id and its Manhattan distance to the orb;
        IllegalStateException outside the hunt stage. */
    method Neighbors() returns (r: Result<seq<NodeStatuses.NodeStatus>>)
      requires Valid()
      ensures r.Ok? <==> stage == HUNT
      ensures r.Err? ==> r.error == IllegalState
      ensures r.Ok? ==> |r.value| == |NeighborIds(huntGraph[position])|
      ensures r.Ok? ==> forall k :: 0 <= k < |r.value| ==>
        var m := NeighborIds(huntGraph[position])[k];
        m in huntTiles && r.value[k] == NodeStatuses.NodeStatus(m, DistanceTo(huntTiles[m].row, huntTiles[m].col))
    {
      if stage != HUNT {
        return Err(IllegalState);
      }
      var ns := NeighborIds(huntGraph[position]);
      forall i | 0 <= i < |ns|
        ensures ns[i] in huntTiles
      {
        assert ns[i] in ns;
        var k :| 0 <= k < |huntGraph[position]| && huntGraph[position][k].dest == ns[i];
        DestHasTile(k);
      }
      var options: seq<NodeStatuses.NodeStatus> := [];
      var k := 0;
      while k < |ns|
        invariant 0 <= k <= |ns| && |options| == k
        invariant forall i :: 0 <= i < k ==>
          var m := ns[i];
          m in huntTiles && options[i] == NodeStatuses.NodeStatus(m, DistanceTo(huntTiles[m].row, huntTiles[m].col))
      {
        var m := ns[k];
        options := options + [NodeStatuses.NodeStatus(m, DistanceTo(huntTiles[m].row, huntTiles[m].col))];
        k := k + 1;
      }
      return Ok(options);
    }

    /** moveTo(id): in the hunt stage, moves to the neighbour with that id
        and counts one step; IllegalStateException outside the hunt stage
        and IllegalArgumentException when no neighbour has that id, with
        nothing changed. */
    method MoveToId(id: NodeId) returns (o: Outcome)
      requires Valid()
      modifies this
      ensures Valid()
      ensures old(stage) != HUNT ==> o == Fail(IllegalState)
      ensures old(stage) == HUNT ==> (o.Pass? <==> Adjacent(huntGraph, old(position), id))
      ensures o.Fail? && old(stage) == HUNT ==> o.error == IllegalArgument
      ensures o.Fail? ==> unchanged(this)
      ensures o.Pass? ==> position == id && stepsTaken == old(stepsTaken) + 1
      ensures o.Pass? ==> stage == old(stage) && stepsRemaining == old(stepsRemaining) && goldCollected == old(goldCollected)
      ensures SameRecords()
    {
      if stage != HUNT {
        return Fail(IllegalState);
      }
      var exits := huntGraph[position];
      var k := 0;
      while k < |exits|
        invariant 0 <= k <= |exits|
        invariant forall j :: 0 <= j < k ==> exits[j].dest != id
      {
        if exits[k].dest == id {
          DestHasTile(k);
          IndexToFinds(exits, id, k);
          position := id;
          stepsTaken := stepsTaken + 1;
          return Pass;
        }
        k := k + 1;
      }
      return Fail(IllegalArgument);
    }

    /** currentNode(): the position; IllegalStateException outside the
        scram stage. */
    function CurrentNode(): (r: Result<NodeId>)
      reads this
      ensures r.Ok? <==> stage == SCRAM
      ensures r.Ok? ==> r.value == position
      ensures r.Err? ==> r.error == IllegalState
    {
      if stage != SCRAM then Err(IllegalState) else Ok(position)
    }

    /** getExit(): the exit of the scram cavern; IllegalStateException
        outside the scram stage. */
    function GetExit(): (r: Result<NodeId>)
      reads this
      ensures r.Ok? <==> stage == SCRAM
      ensures r.Ok? ==> r.value == scramTarget
      ensures r.Err? ==> r.error == IllegalState
    {
      if stage != SCRAM then Err(IllegalState) else Ok(scramTarget)
    }

    /** allNodes(): the nodes of the scram cavern; IllegalStateException
        outside the scram stage. */
    function AllNodes(): (r: Result<set<NodeId>>)
      reads this
      ensures r.Ok? <==> stage == SCRAM
      ensures r.Ok? ==> r.value == scramGraph.Keys
      ensures r.Err? ==> r.error == IllegalState
    {
      if stage != SCRAM then Err(IllegalState) else Ok(scramGraph.Keys)
    }

    /** stepsLeft(): the remaining step budget, never negative;
        IllegalStateException outside the scram stage. */
    function StepsLeft(): (r: Result<int>)
      reads this
      requires Valid()
      ensures r.Ok? <==> stage == SCRAM
      ensures r.Ok? ==> r.value == stepsRemaining && r.value >= 0
      ensures r.Err? ==> r.error == IllegalState
    {
      if stage != SCRAM then Err(IllegalState) else Ok(stepsRemaining)
    }

    /** The outcome flags and the least distances are as they were. */
    twostate predicate SameRecords()
      reads this
    {
      && huntSucceeded == old(huntSucceeded) && scramSucceeded == old(scramSucceeded)
      && huntErrored == old(huntErrored) && scramErrored == old(scramErrored)
      && minHuntDistance == old(minHuntDistance) && minScramDistance == old(minScramDistance)
    }

    /** The tile the position's gold lies on during the scram stage, as a
        frame. */
    function PositionTile(): set<Tiles.Tile>
      reads this
    {
      if stage == SCRAM && position in scramTiles then {scramTiles[position]} else {}
    }

    /** grabGold(): in the scram stage, takes the gold of the position's tile
        and adds exactly that amount to the gold collected;
        IllegalStateException outside the scram stage or when the tile has
        no gold, with nothing changed. */
    method GrabGold() returns (o: Outcome)
      requires Valid()
      modifies this, PositionTile()
      ensures Valid() && position == old(position) && stage == old(stage)
      ensures o.Pass? <==> old(stage) == SCRAM && old(scramTiles[position].Gold()) > 0
      ensures o.Fail? ==> o.error == IllegalState && unchanged(this) && unchanged(old(PositionTile()))
      ensures o.Pass? ==> goldCollected == old(goldCollected) + old(scramTiles[position].Gold())
      ensures o.Pass? ==> scramTiles[position].Gold() == 0
      ensures stepsRemaining == old(stepsRemaining) && stepsTaken == old(stepsTaken) && SameRecords()
    {
      if stage != SCRAM {
        return Fail(IllegalState);
      }
      var tile := scramTiles[position];
      if tile.Gold() <= 0 {
        return Fail(IllegalState);
      }
      var g := tile.TakeGold();
      goldCollected := goldCollected + g;
      o := Pass;
    }

    /** The tile of node n of the scram cavern, as a frame. */
    function TileOf(n: NodeId): set<Tiles.Tile>
    {
      if n in scramTiles then {scramTiles[n]} else {}
    }

    /** moveTo(n): in the scram stage, moves along the exit getEdge(n) picks,
        taking its length off the step budget (which so stays non-negative),
        and picks up any gold on the new tile. IllegalStateException outside
        the scram stage, IllegalArgumentException when no exit leads to n,
        OutOfStepsException when the edge is longer than the remaining
        budget; in each case nothing changes. */
    method MoveToNode(n: NodeId) returns (o: Outcome)
      requires Valid()
      modifies this, TileOf(n)
      ensures Valid() && stage == old(stage)
      ensures old(stage) != SCRAM ==> o == Fail(IllegalState)
      ensures o.Pass? <==>
        old(stage) == SCRAM && Adjacent(scramGraph, old(position), n) && EdgeLen(scramGraph, old(position), n) <= old(stepsRemaining)
      ensures o.Fail? && old(stage) == SCRAM && !Adjacent(scramGraph, old(position), n) ==> o.error == IllegalArgument
      ensures o.Fail? && old(stage) == SCRAM && Adjacent(scramGraph, old(position), n) ==> o.error == OutOfSteps
      ensures o.Fail? ==> unchanged(this) && unchanged(TileOf(n))
      ensures o.Pass? ==> position == n && stepsRemaining == old(stepsRemaining) - EdgeLen(scramGraph, old(position), n)
      ensures o.Pass? ==> goldCollected == old(goldCollected) + Picked(old(scramTiles[n].Gold()))
      ensures o.Pass? && old(scramTiles[n].Gold()) > 0 ==> scramTiles[n].Gold() == 0
      ensures stepsTaken == old(stepsTaken) && SameRecords()
    {
      if stage != SCRAM {
        return Fail(IllegalState);
      }
      var e := GetEdge(scramGraph[position], n);
      if e.Err? {
        return Fail(e.error);
      }
      var distance := e.value.length;
      if stepsRemaining - distance < 0 {
        return Fail(OutOfSteps);
      }
      assert n in scramGraph;
      position := n;
      stepsRemaining := stepsRemaining - distance;
      if scramTiles[position].Gold() > 0 {
        var grabbed := GrabGold();
        assert grabbed.Pass?;
      }
      o := Pass;
    }

    /** The state hunt() sets up before handing over to the hunter: the hunt
        stage, no step taken, not yet succeeded, at the entrance, with the
        least distance from the entrance to the orb computed.
        IllegalStateException when the orb cannot be reached. */
    method StartHunt() returns (o: Outcome)
      requires Valid()
      modifies this
      ensures Valid()
      ensures stage == HUNT && stepsTaken == 0 && !huntSucceeded && position == huntEntrance
      ensures huntErrored == old(huntErrored) && scramSucceeded == old(scramSucceeded) && scramErrored == old(scramErrored)
      ensures minScramDistance == old(minScramDistance)
      ensures stepsRemaining == old(stepsRemaining) && goldCollected == old(goldCollected)
      ensures o.Fail? <==> !Reachable(huntGraph, huntEntrance, huntTarget)
      ensures o.Fail? ==> o.error == IllegalState
      ensures o.Pass? ==> forall q :: PathFrom(huntGraph, q, huntEntrance, huntTarget) ==> minHuntDistance <= Weight(huntGraph, q)
      ensures o.Pass? && Simple(huntGraph) ==>
        exists q :: PathFrom(huntGraph, q, huntEntrance, huntTarget) && Weight(huntGraph, q) == minHuntDistance
    {
      var d := Caverns.MinPathLengthToTarget(huntGraph, huntEntrance, huntTarget);
      stage := HUNT;
      stepsTaken := 0;
      huntSucceeded := false;
      position := huntEntrance;
      if d.Err? {
        return Fail(d.error);
      }
      minHuntDistance := d.value;
      o := Pass;
    }

    /** What hunt() records once the hunter returns: success exactly when
        the hunter returned normally on the orb, an error when it threw. */
    method EndHunt(hunter: Outcome)
      requires Valid()
      modifies this
      ensures Valid() && position == old(position) && stage == old(stage)
      ensures hunter.Fail? ==> huntErrored && huntSucceeded == old(huntSucceeded)
      ensures hunter.Pass? ==> huntSucceeded == (old(huntSucceeded) || position == huntTarget)
      ensures hunter.Pass? ==> huntErrored == old(huntErrored)
      ensures scramSucceeded == old(scramSucceeded) && scramErrored == old(scramErrored)
      ensures minHuntDistance == old(minHuntDistance) && minScramDistance == old(minScramDistance)
      ensures stepsTaken == old(stepsTaken) && stepsRemaining == old(stepsRemaining) && goldCollected == old(goldCollected)
    {
      if hunter.Fail? {
        huntErrored := true;
      } else if position == huntTarget {
        huntSucceeded := true;
      }
    }

    /** The state scram() sets up before handing over to the hunter: the
        scram stage, at the node of the orb's tile, with the least distance
        to the exit computed, the step budget stepsToScram (computed by
        computeStepsToScram in floating point) and the gold of the first
        tile picked up. IllegalStateException when the exit cannot be
        reached. */
    method StartScram(stepsToScram: int) returns (o: Outcome)
      requires Valid() && 0 <= stepsToScram
      modifies this, TileOf(scramStart)
      ensures Valid()
      ensures stage == SCRAM && position == scramStart && stepsTaken == old(stepsTaken)
      ensures AtOrb(scramTiles[position])
      ensures huntSucceeded == old(huntSucceeded) && huntErrored == old(huntErrored) && minHuntDistance == old(minHuntDistance)
      ensures scramSucceeded == old(scramSucceeded) && scramErrored == old(scramErrored)
      ensures o.Fail? <==> !Reachable(scramGraph, scramStart, scramTarget)
      ensures o.Fail? ==> o.error == IllegalState && goldCollected == old(goldCollected)
      ensures o.Pass? ==> stepsRemaining == stepsToScram
      ensures o.Pass? ==> forall q :: PathFrom(scramGraph, q, scramStart, scramTarget) ==> minScramDistance <= Weight(scramGraph, q)
      ensures o.Pass? && Simple(scramGraph) ==>
        exists q :: PathFrom(scramGraph, q, scramStart, scramTarget) && Weight(scramGraph, q) == minScramDistance
      ensures o.Pass? ==> goldCollected == old(goldCollected) + Picked(old(scramTiles[scramStart].Gold()))
      ensures o.Pass? && old(scramTiles[scramStart].Gold()) > 0 ==> scramTiles[scramStart].Gold() == 0
    {
      var d := Caverns.MinPathLengthToTarget(scramGraph, scramStart, scramTarget);
      stage := SCRAM;
      position := scramStart;
      if d.Err? {
        return Fail(d.error);
      }
      minScramDistance := d.value;
      stepsRemaining := stepsToScram;
      if scramTiles[position].Gold() > 0 {
        var grabbed := GrabGold();
        assert grabbed.Pass?;
      }
      o := Pass;
    }

    /** What scram() records once the hunter returns: success exactly when
        the hunter returned normally at the exit; running out of steps is
        reported but is not an error of the hunter's code, any other
        exception is. */
    method EndScram(hunter: Outcome)
      requires Valid()
      modifies this
      ensures Valid() && position == old(position) && stage == old(stage)
      ensures hunter.Fail? && hunter.error != OutOfSteps ==> scramErrored
      ensures hunter.Fail? ==> scramSucceeded == old(scramSucceeded)
      ensures hunter == Fail(OutOfSteps) ==> scramErrored == old(scramErrored)
      ensures hunter.Pass? ==> scramSucceeded == (old(scramSucceeded) || position == scramTarget)
      ensures huntSucceeded == old(huntSucceeded) && huntErrored == old(huntErrored)
      ensures minHuntDistance == old(minHuntDistance) && minScramDistance == old(minScramDistance)
      ensures stepsTaken == old(stepsTaken) && stepsRemaining == old(stepsRemaining) && goldCollected == old(goldCollected)
    {
      if hunter.Fail? && hunter.error == OutOfSteps {
        return;
      }
      if hunter.Fail? {
        scramErrored := true;
      } else if position == scramTarget {
        scramSucceeded := true;
      }
    }
  }

  /** The gold a move picks up from a tile holding g: all of it when there
      is any, none otherwise. */
  function Picked(g: int): (r: int)
    ensures r >= 0 && (r == g || r == 0)
    ensures r > 0 <==> g > 0
  {
    if g > 0 then g else 0
  }

  /** getNeighbors() of a node with exits es: their destinations, each once,
      in the order addEdge first added them to the LinkedHashSet. */
  function NeighborIds(es: seq<Edge>): (r: seq<NodeId>)
    ensures forall m :: m in r <==> exists k :: 0 <= k < |es| && es[k].dest == m
    ensures Nodes.NoDup(r) && |r| <= |es|
  {
    if es == [] then []
    else
      var init := NeighborIds(es[..|es| - 1]);
      forall m | (exists k :: 0 <= k < |es| && es[k].dest == m)
        ensures m in init || m == es[|es| - 1].dest
      {
        var k :| 0 <= k < |es| && es[k].dest == m;
        if k < |es| - 1 {
          assert es[..|es| - 1][k].dest == m;
        }
      }
      forall m | m in init
        ensures exists k :: 0 <= k < |es| && es[k].dest == m
      {
        var k :| 0 <= k < |es| - 1 && es[..|es| - 1][k].dest == m;
        assert es[k].dest == m;
      }
      Nodes.SetAdd(init, es[|es| - 1].dest)
  }

  /** Two parallel exits to the same node give that node once, as the
      LinkedHashSet of getNeighbors() does. */
  lemma ParallelExitsOnce(p: NodeId, m: NodeId)
    ensures NeighborIds([Edge(p, m, 1), Edge(p, m, 2)]) == [m]
  {
    assert [Edge(p, m, 1), Edge(p, m, 2)][..1] == [Edge(p, m, 1)];
  }

  lemma DestIn(g: Graph, n: NodeId, k: int)
    requires WellFormed(g) && n in g && 0 <= k < |g[n]|
    ensures g[n][k].dest in g
  {
  }

  /** Math.abs. */
  function Abs(x: int): (r: int)
    ensures r >= 0 && (r == x || r == -x)
  {
    if x < 0 then -x else x
  }
}
