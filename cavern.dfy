/** game/Cavern.java: the grid of a cavern and the weighted graph of its open
    tiles. Modelled here: the distance-only Dijkstra search
    minPathLengthToTarget (over InternalMinHeap and a map of path weights),
    the edge wiring of createEdges, the interior test isValid and
    minOrbDistance. The cavern's graph is the value Graphs.Graph; the grid
    handed to createEdges is a sequence of rows of cells. */
module Caverns {
  import opened Wrappers
  import opened Edges
  import opened Graphs
  import opened Tiles
  import InternalHeap
  import Dijkstra
  import JavaInt

  /** Cavern.MAX_EDGE_WEIGHT. */
  const MAX_EDGE_WEIGHT: int := 15

  /** minOrbDistance(rows, cols): half the sum of the dimensions, rounded
      toward zero. */
  function MinOrbDistance(rows: int, cols: int): (r: int)
    ensures rows + cols >= 0 ==> 0 <= r && 2 * r <= rows + cols < 2 * r + 2
    ensures rows + cols < 0 ==> r <= 0 && 2 * r - 2 < rows + cols <= 2 * r
  {
    JavaInt.JavaDiv(rows + cols, 2)
  }

  /** Cavern.Direction, as the step it adds to a point. */
  datatype Direction = NORTH | EAST | SOUTH | WEST

  function DRow(d: Direction): int
  {
    match d
    case NORTH => -1
    case SOUTH => 1
    case _ => 0
  }

  function DCol(d: Direction): int
  {
    match d
    case EAST => 1
    case WEST => -1
    case _ => 0
  }

  /** isValid(p): p lies strictly inside a rows x cols grid. */
  predicate IsValid(rows: int, cols: int, row: int, col: int)
    ensures IsValid(rows, cols, row, col) ==> 0 <= row < rows && 0 <= col < cols && rows >= 3 && cols >= 3
  {
    0 < row < rows - 1 && 0 < col < cols - 1
  }

  /** An interior point keeps all four neighbours on the grid, and a point
      of the grid that is not interior lies on its border. */
  lemma IsValidMeans(rows: int, cols: int, row: int, col: int)
    ensures IsValid(rows, cols, row, col) ==>
      forall d: Direction :: 0 <= row + DRow(d) < rows && 0 <= col + DCol(d) < cols
    ensures !IsValid(rows, cols, row, col) && 0 <= row < rows && 0 <= col < cols ==>
      row == 0 || row == rows - 1 || col == 0 || col == cols - 1
  {
    if IsValid(rows, cols, row, col) {
      forall d: Direction
        ensures 0 <= row + DRow(d) < rows && 0 <= col + DCol(d) < cols
      {
        match d
        case NORTH =>
        case EAST =>
        case SOUTH =>
        case WEST =>
      }
    }
  }

  // ----- createEdges -----

  /** A grid cell as createEdges sees it: the id of its node and the type of
      its tile. */
  datatype Cell = Cell(id: NodeId, ttype: TileType)

  /** A grid of rows of equal length, one node per cell (distinct ids). */
  predicate Grid(t: seq<seq<Cell>>)
  {
    && (forall i :: 0 <= i < |t| ==> |t[i]| == |t[0]|)
    && (forall i, j, i', j' ::
          0 <= i < |t| && 0 <= j < |t[i]| && 0 <= i' < |t| && 0 <= j' < |t[i']| && t[i][j].id == t[i'][j'].id
          ==> i == i' && j == j')
  }

  /** The ids of the cells that are not walls. */
  function OpenIds(t: seq<seq<Cell>>): set<NodeId>
  {
    set i, j | 0 <= i < |t| && 0 <= j < |t[i]| && t[i][j].ttype != WALL :: t[i][j].id
  }

  /** Every exit starts at its node and leads to a node of the graph that
      has the reverse exit, of the same length. */
  ghost predicate Symmetric(g: Graph)
  {
    forall n, e :: n in g && e in g[n] ==> e.src == n && e.dest in g && Edge(e.dest, n, e.length) in g[e.dest]
  }

  /** Every length is one of the first c values the generator supplied. */
  ghost predicate Supplied(g: Graph, gen: nat -> int, c: nat)
  {
    forall n, e :: n in g && e in g[n] ==> exists c' :: 0 <= c' < c && e.length == gen(c')
  }

  /** a has an exit to b. */
  ghost predicate Joined(g: Graph, a: NodeId, b: NodeId)
  {
    a in g && exists e :: e in g[a] && e.dest == b
  }

  /** Every exit of g is still an exit of h. */
  ghost predicate Grows(g: Graph, h: Graph)
  {
    forall n, e :: n in g && e in g[n] ==> n in h && e in h[n]
  }

  /** The two writes of createEdges' inner step: an edge from a to b and one
      back, of the same length w. */
  function Wire(g: Graph, a: NodeId, b: NodeId, w: int): (h: Graph)
    requires a in g && b in g && a != b
    ensures h.Keys == g.Keys
  {
    g[a := g[a] + [Edge(a, b, w)]][b := g[b] + [Edge(b, a, w)]]
  }

  /** Wiring keeps the exits symmetric, keeps every exit, joins a and b
      both ways and uses only the new length w. */
  lemma WireKeeps(g: Graph, a: NodeId, b: NodeId, w: int, gen: nat -> int, c: nat)
    requires a in g && b in g && a != b && Symmetric(g) && Supplied(g, gen, c) && w == gen(c)
    ensures Symmetric(Wire(g, a, b, w)) && Supplied(Wire(g, a, b, w), gen, c + 1)
    ensures Grows(g, Wire(g, a, b, w))
    ensures Joined(Wire(g, a, b, w), a, b) && Joined(Wire(g, a, b, w), b, a)
  {
    var h := Wire(g, a, b, w);
    assert h[a] == g[a] + [Edge(a, b, w)] && h[b] == g[b] + [Edge(b, a, w)];
    forall n: NodeId, e: Edge | n in h && e in h[n]
      ensures e.src == n && e.dest in h && Edge(e.dest, n, e.length) in h[e.dest]
      ensures exists c' :: 0 <= c' < c + 1 && e.length == gen(c')
    {
      if n == a && e == Edge(a, b, w) {
      } else if n == b && e == Edge(b, a, w) {
      } else {
        assert e in g[n];
      }
    }
  }

  /** Joining persists as the graph grows. */
  lemma GrowsJoined(g: Graph, h: Graph, a: NodeId, b: NodeId)
    requires Grows(g, h) && Joined(g, a, b)
    ensures Joined(h, a, b)
  {
  }

  /** The cells of a and b are neighbours in the grid, and (i, j) is the
      upper or left one of the two: the cell whose turn of createEdges may
      join them. */
  predicate Owns(t: seq<seq<Cell>>, i: int, j: int, a: NodeId, b: NodeId)
  {
    && 0 <= i < |t| - 1 && 0 <= j < |t[i]| - 1 && j < |t[i + 1]|
    && var c, s, e := t[i][j].id, t[i + 1][j].id, t[i][j + 1].id;
       (a == c && (b == s || b == e)) || (b == c && (a == s || a == e))
  }

  /** Every exit of g joins two grid neighbours whose upper or left cell
      comes before cell (i, j) in the row-by-row order of createEdges. */
  ghost predicate OwnedBefore(t: seq<seq<Cell>>, g: Graph, i: int, j: int)
  {
    forall n, e :: n in g && e in g[n] ==> OwnedExit(t, n, e.dest, i, j)
  }

  /** The cells of a and b are grid neighbours whose upper or left cell
      comes before cell (i, j). */
  ghost predicate OwnedExit(t: seq<seq<Cell>>, a: NodeId, b: NodeId, i: int, j: int)
  {
    exists i', j' :: (i' < i || (i' == i && j' < j)) && Owns(t, i', j', a, b)
  }

  /** Every exit of g joins two grid neighbours. */
  ghost predicate NeighboursOnly(t: seq<seq<Cell>>, g: Graph)
  {
    forall n, e :: n in g && e in g[n] ==> GridNeighbours(t, n, e.dest)
  }

  /** The cells of a and b are neighbours in the grid. */
  ghost predicate GridNeighbours(t: seq<seq<Cell>>, a: NodeId, b: NodeId)
  {
    exists i', j' :: Owns(t, i', j', a, b)
  }

  /** x has no exit to y. */
  ghost predicate NoExit(g: Graph, x: NodeId, y: NodeId)
  {
    forall e :: x in g && e in g[x] ==> e.dest != y
  }

  /** Every exit of h that is not an exit of g joins a and b, one way or the
      other. */
  ghost predicate Adds(g: Graph, h: Graph, a: NodeId, b: NodeId)
  {
    forall n, e :: n in h && e in h[n] ==> (n in g && e in g[n]) || (n == a && e.dest == b) || (n == b && e.dest == a)
  }

  /** Wiring a and b, which had no exit between them, adds no second exit to
      the same node. */
  lemma WireSimple(g: Graph, a: NodeId, b: NodeId, w: int)
    requires a in g && b in g && a != b && Simple(g) && NoExit(g, a, b) && NoExit(g, b, a)
    ensures Simple(Wire(g, a, b, w)) && Adds(g, Wire(g, a, b, w), a, b)
  {
    var h := Wire(g, a, b, w);
    assert h[a] == g[a] + [Edge(a, b, w)] && h[b] == g[b] + [Edge(b, a, w)];
    forall n, i, j | n in h && 0 <= i < j < |h[n]|
      ensures h[n][i].dest != h[n][j].dest
    {
      if n == a && j == |g[a]| {
        assert g[a][i] in g[a];
      } else if n == b && j == |g[b]| {
        assert g[b][i] in g[b];
      }
    }
  }

  /** The pair owned by the cell whose turn it is has no exit yet. */
  lemma NotYetOwned(t: seq<seq<Cell>>, g: Graph, i: int, j: int, b: NodeId)
    requires Grid(t) && 0 <= i < |t| - 1 && 0 <= j < |t[i]| - 1 && OwnedBefore(t, g, i, j)
    requires b == t[i + 1][j].id || b == t[i][j + 1].id
    ensures NoExit(g, t[i][j].id, b) && NoExit(g, b, t[i][j].id)
  {
    var a := t[i][j].id;
    forall e | a in g && e in g[a]
      ensures e.dest != b
    {
      if e.dest == b {
        assert OwnedExit(t, a, b, i, j);
        var i', j' :| (i' < i || (i' == i && j' < j)) && Owns(t, i', j', a, b);
      }
    }
    forall e | b in g && e in g[b]
      ensures e.dest != a
    {
      if e.dest == a {
        assert OwnedExit(t, b, a, i, j);
        var i', j' :| (i' < i || (i' == i && j' < j)) && Owns(t, i', j', b, a);
      }
    }
  }

  /** An exit added for the pair owned by cell (i, j) keeps every exit owned
      before the cell that follows it. */
  lemma OwnedAdds(t: seq<seq<Cell>>, g: Graph, h: Graph, i: int, j: int, a: NodeId, b: NodeId)
    requires OwnedBefore(t, g, i, j + 1) && Adds(g, h, a, b) && Owns(t, i, j, a, b)
    ensures OwnedBefore(t, h, i, j + 1)
  {
    forall n, e | n in h && e in h[n]
      ensures OwnedExit(t, n, e.dest, i, j + 1)
    {
      if n in g && e in g[n] {
      } else {
        assert Owns(t, i, j, n, e.dest);
      }
    }
  }

  /** Owned before a cell means owned before any later cell. */
  lemma OwnedLater(t: seq<seq<Cell>>, g: Graph, i: int, j: int, i2: int, j2: int)
    requires OwnedBefore(t, g, i, j) && (i < i2 || (i == i2 && j <= j2))
    ensures OwnedBefore(t, g, i2, j2)
  {
    forall n, e | n in g && e in g[n]
      ensures OwnedExit(t, n, e.dest, i2, j2)
    {
      assert OwnedExit(t, n, e.dest, i, j);
      var i', j' :| (i' < i || (i' == i && j' < j)) && Owns(t, i', j', n, e.dest);
      assert (i' < i2 || (i' == i2 && j' < j2)) && Owns(t, i', j', n, e.dest);
    }
  }

  /** Exits owned by some cell join grid neighbours. */
  lemma OwnedNeighbours(t: seq<seq<Cell>>, g: Graph, i: int, j: int)
    requires OwnedBefore(t, g, i, j)
    ensures NeighboursOnly(t, g)
  {
    forall n, e | n in g && e in g[n]
      ensures GridNeighbours(t, n, e.dest)
    {
      assert OwnedExit(t, n, e.dest, i, j);
      var i', j' :| (i' < i || (i' == i && j' < j)) && Owns(t, i', j', n, e.dest);
      assert Owns(t, i', j', n, e.dest);
    }
  }

  /** An exit that is neither a -> b nor b -> a does not count against
      NoExit(x, y) once a and b are wired. */
  lemma NoExitAdds(g: Graph, h: Graph, a: NodeId, b: NodeId, x: NodeId, y: NodeId)
    requires NoExit(g, x, y) && Adds(g, h, a, b) && !(x == a && y == b) && !(x == b && y == a)
    ensures NoExit(h, x, y)
  {
  }

  /** The open cell (i, j) is joined both ways to its open neighbour to the
      south and to the east. */
  ghost predicate CellWired(t: seq<seq<Cell>>, g: Graph, i: int, j: int)
    requires Grid(t) && 0 <= i < |t| - 1 && 0 <= j < |t[0]| - 1
  {
    var a, s, e := t[i][j], t[i + 1][j], t[i][j + 1];
    a.ttype != WALL ==>
      && (s.ttype != WALL ==> Joined(g, a.id, s.id) && Joined(g, s.id, a.id))
      && (e.ttype != WALL ==> Joined(g, a.id, e.id) && Joined(g, e.id, a.id))
  }

  /** The cells createEdges has finished once it reaches cell (i, j): every
      cell of an earlier row, and the earlier cells of row i. */
  ghost predicate WiredBefore(t: seq<seq<Cell>>, g: Graph, i: int, j: int)
    requires Grid(t)
  {
    forall i', j' :: 0 <= i' < |t| - 1 && 0 <= j' < |t[0]| - 1 && (i' < i || (i' == i && j' < j)) ==>
      CellWired(t, g, i', j')
  }

  /** Growing the graph keeps what has been wired. */
  lemma GrowsWired(t: seq<seq<Cell>>, g: Graph, h: Graph, i: int, j: int)
    requires Grid(t) && Grows(g, h) && WiredBefore(t, g, i, j)
    ensures WiredBefore(t, h, i, j)
  {
    forall i', j' | 0 <= i' < |t| - 1 && 0 <= j' < |t[0]| - 1 && (i' < i || (i' == i && j' < j))
      ensures CellWired(t, h, i', j')
    {
      assert CellWired(t, g, i', j');
      var a, s, e := t[i'][j'], t[i' + 1][j'], t[i'][j' + 1];
      if a.ttype != WALL && s.ttype != WALL {
        GrowsJoined(g, h, a.id, s.id);
        GrowsJoined(g, h, s.id, a.id);
      }
      if a.ttype != WALL && e.ttype != WALL {
        GrowsJoined(g, h, a.id, e.id);
        GrowsJoined(g, h, e.id, a.id);
      }
    }
  }

  /** Finishing cell (i, j) moves the wired region one cell on. */
  lemma WiredNext(t: seq<seq<Cell>>, g: Graph, i: int, j: int)
    requires Grid(t) && 0 <= i < |t| - 1 && 0 <= j < |t[0]| - 1
    requires WiredBefore(t, g, i, j) && CellWired(t, g, i, j)
    ensures WiredBefore(t, g, i, j + 1)
  {
  }

  /** Finishing row i moves the wired region to the next row. */
  lemma WiredRow(t: seq<seq<Cell>>, g: Graph, i: int, j: int)
    requires Grid(t) && 0 <= i < |t| - 1 && (j == |t[0]| - 1 || (j == 0 && |t[0]| - 1 <= 0))
    requires WiredBefore(t, g, i, j)
    ensures WiredBefore(t, g, i + 1, 0)
  {
  }

  /** Wiring the open cell a to its open neighbour b, with the next
      generated length. */
  method WireStep(g: Graph, a: NodeId, b: NodeId, gen: nat -> int, c: nat) returns (h: Graph, c': nat)
    requires a in g && b in g && a != b && Symmetric(g) && Supplied(g, gen, c)
    requires Simple(g) && NoExit(g, a, b) && NoExit(g, b, a)
    ensures c' == c + 1 && h.Keys == g.Keys
    ensures Symmetric(h) && Supplied(h, gen, c') && Grows(g, h)
    ensures Joined(h, a, b) && Joined(h, b, a)
    ensures Simple(h) && Adds(g, h, a, b)
  {
    var w := gen(c);
    WireKeeps(g, a, b, w, gen, c);
    WireSimple(g, a, b, w);
    h, c' := Wire(g, a, b, w), c + 1;
  }

  /** The body of createEdges' inner loop for cell (i, j): nothing for a
      wall; otherwise the open neighbour to the south, then the open one to
      the east, each joined both ways. */
  method WireCell(t: seq<seq<Cell>>, g: Graph, i: int, j: int, gen: nat -> int, c: nat)
    returns (h: Graph, c': nat)
    requires Grid(t) && 0 <= i < |t| - 1 && 0 <= j < |t[i]| - 1
    requires g.Keys == OpenIds(t) && Symmetric(g) && Supplied(g, gen, c)
    requires Simple(g) && OwnedBefore(t, g, i, j)
    ensures h.Keys == g.Keys && Symmetric(h) && Supplied(h, gen, c') && Grows(g, h)
    ensures CellWired(t, h, i, j)
    ensures Simple(h) && OwnedBefore(t, h, i, j + 1)
  {
    h, c' := g, c;
    OwnedLater(t, g, i, j, i, j + 1);
    var node := t[i][j];
    if node.ttype == WALL {
      return;
    }
    var south := t[i + 1][j];
    var east := t[i][j + 1];
    assert node.id in h && south.id != node.id && east.id != node.id && east.id != south.id;
    NotYetOwned(t, g, i, j, south.id);
    NotYetOwned(t, g, i, j, east.id);
    if south.ttype != WALL {
      assert south.id in h;
      h, c' := WireStep(h, node.id, south.id, gen, c');
      OwnedAdds(t, g, h, i, j, node.id, south.id);
      NoExitAdds(g, h, node.id, south.id, node.id, east.id);
      NoExitAdds(g, h, node.id, south.id, east.id, node.id);
    }
    ghost var h1 := h;
    if east.ttype != WALL {
      assert east.id in h;
      h, c' := WireStep(h, node.id, east.id, gen, c');
      OwnedAdds(t, h1, h, i, j, node.id, east.id);
      if south.ttype != WALL {
        GrowsJoined(h1, h, node.id, south.id);
        GrowsJoined(h1, h, south.id, node.id);
      }
    }
  }

  /** createEdges(t, edgeWeightGenerator): for every open cell that is not
      in the last row or the last column, the open neighbour to the south
      and then the one to the east are joined by a pair of opposite edges of
      one freshly generated length. The result holds the exits of every open
      cell; only open cells are joined, every exit has its reverse with the
      same length, and each length came from the generator. */
  method CreateEdges(t: seq<seq<Cell>>, gen: nat -> int) returns (g: Graph, count: nat)
    requires Grid(t)
    ensures g.Keys == OpenIds(t)
    ensures Symmetric(g) && Supplied(g, gen, count)
    ensures WiredBefore(t, g, |t| - 1, 0)
    ensures NeighboursOnly(t, g) && Simple(g)
    ensures (forall c :: 0 <= c < count ==> 0 <= gen(c)) ==> WellFormed(g)
  {
    g := map n | n in OpenIds(t) :: [];
    count := 0;
    var i := 0;
    while i < |t| - 1
      invariant 0 <= i <= |t| - 1 || i == 0
      invariant g.Keys == OpenIds(t)
      invariant Symmetric(g) && Supplied(g, gen, count)
      invariant WiredBefore(t, g, i, 0)
      invariant Simple(g) && OwnedBefore(t, g, i, 0)
    {
      var j := 0;
      while j < |t[i]| - 1
        invariant 0 <= j <= |t[i]| - 1 || j == 0
        invariant g.Keys == OpenIds(t)
        invariant Symmetric(g) && Supplied(g, gen, count)
        invariant WiredBefore(t, g, i, j)
        invariant Simple(g) && OwnedBefore(t, g, i, j)
      {
        ghost var g0 := g;
        g, count := WireCell(t, g, i, j, gen, count);
        GrowsWired(t, g0, g, i, j);
        WiredNext(t, g, i, j);
        j := j + 1;
      }
      WiredRow(t, g, i, j);
      OwnedLater(t, g, i, j, i + 1, 0);
      i := i + 1;
    }
    OwnedNeighbours(t, g, i, 0);
    if forall c :: 0 <= c < count ==> 0 <= gen(c) {
      forall n, k | n in g && 0 <= k < |g[n]|
        ensures g[n][k].src == n && g[n][k].dest in g && 0 <= g[n][k].length
      {
        assert g[n][k] in g[n];
      }
    }
  }

  // ----- minPathLengthToTarget -----

  /** Each discovered node has a path from the start that reaches it; without
      parallel exits the path weighs exactly the recorded weight. These paths
      exist only in the proof: the search itself keeps no backpointers. */
  ghost predicate Witnessed(g: Graph, v: NodeId, D: map<NodeId, int>, wit: map<NodeId, seq<NodeId>>)
  {
    forall x :: x in D ==>
      && x in wit
      && PathFrom(g, wit[x], v, x)
      && (Simple(g) ==> Weight(g, wit[x]) == D[x])
  }

  /** Relaxing f's exit k to w in distance nd: the witness of f extended by w
      witnesses w. */
  lemma WitnessRelax(g: Graph, v: NodeId, D: map<NodeId, int>, wit: map<NodeId, seq<NodeId>>,
                     f: NodeId, k: int, w: NodeId, nd: int)
    requires WellFormed(g) && Witnessed(g, v, D, wit)
    requires f in g && f in D && 0 <= k < |g[f]|
    requires w == g[f][k].dest && nd == D[f] + g[f][k].length
    ensures Witnessed(g, v, D[w := nd], wit[w := wit[f] + [w]])
  {
    var p := wit[f];
    IndexToFinds(g[f], w, k);
    ExtendPath(g, p, w);
    if Simple(g) {
      IndexToUnique(g, f, k);
    }
    assert PathFrom(g, p + [w], v, w);
  }

  /** The target has just been polled: its recorded weight is that of a path
      reaching it, and no path from the start weighs less. */
  lemma FoundTarget(g: Graph, v: NodeId, t: NodeId, D: map<NodeId, int>, Fr: map<NodeId, int>,
                    wit: map<NodeId, seq<NodeId>>)
    requires Dijkstra.Inv(g, v, D, Fr) && t in Fr
    requires forall x :: x in Fr ==> Fr[t] <= Fr[x]
    requires Witnessed(g, v, D, wit)
    ensures t in D && Reachable(g, v, t)
    ensures forall q :: PathFrom(g, q, v, t) ==> D[t] <= Weight(g, q)
    ensures Simple(g) ==> exists q :: PathFrom(g, q, v, t) && Weight(g, q) == D[t]
    ensures v == t ==> D[t] == 0
  {
    assert t in D && PathFrom(g, wit[t], v, t);
    forall q | PathFrom(g, q, v, t)
      ensures D[t] <= Weight(g, q)
    {
      Dijkstra.LowerBound(g, v, D, Fr, t, q);
    }
  }

  /** The inner loop of minPathLengthToTarget: every exit of the polled node
      n is followed; a new neighbour is recorded and added to the heap, a
      neighbour now strictly nearer gets the smaller weight and its priority
      lowered. Weights are only ever lowered and no entry disappears. */
  method RelaxExits(g: Graph, v: NodeId, heap: InternalHeap.InternalMinHeap<NodeId>, pathWeights: map<NodeId, int>,
                    ghost wit: map<NodeId, seq<NodeId>>, n: NodeId)
    returns (pathWeights': map<NodeId, int>, ghost wit': map<NodeId, seq<NodeId>>)
    requires heap.Valid()
    requires n in g && Dijkstra.Scanning(g, v, pathWeights, heap.Contents(), n, 0)
    requires Witnessed(g, v, pathWeights, wit)
    modifies heap
    ensures heap.Valid()
    ensures Dijkstra.Inv(g, v, pathWeights', heap.Contents())
    ensures Witnessed(g, v, pathWeights', wit')
    ensures Dijkstra.SettledSet(pathWeights', heap.Contents()) == Dijkstra.SettledSet(pathWeights, old(heap.Contents()))
    ensures Dijkstra.Lowered(pathWeights, pathWeights')
  {
    pathWeights', wit' := pathWeights, wit;
    var nWeight := pathWeights[n];
    ghost var S := Dijkstra.SettledSet(pathWeights, heap.Contents());
    ghost var Fr := heap.Contents();
    var k := 0;
    while k < |g[n]|
      invariant heap.Valid() && heap.Contents() == Fr
      invariant n in pathWeights' && pathWeights'[n] == nWeight
      invariant Dijkstra.Scanning(g, v, pathWeights', Fr, n, k)
      invariant Witnessed(g, v, pathWeights', wit')
      invariant Dijkstra.SettledSet(pathWeights', Fr) == S
      invariant Dijkstra.Lowered(pathWeights, pathWeights')
    {
      var e := g[n][k];
      var m := GetOther(e, n).value;
      var weightThroughN := nWeight + e.length;
      assert m == g[n][k].dest;
      if m !in pathWeights' {
        Dijkstra.RelaxLower(g, v, pathWeights', Fr, n, k, m, weightThroughN);
        WitnessRelax(g, v, pathWeights', wit', n, k, m, weightThroughN);
        Dijkstra.LowerOne(pathWeights, pathWeights', m, weightThroughN);
        pathWeights', wit' := pathWeights'[m := weightThroughN], wit'[m := wit'[n] + [m]];
        var added := heap.Add(m, weightThroughN);
        assert added.Pass?;
        Fr := Fr[m := weightThroughN];
      } else if weightThroughN < pathWeights'[m] {
        Dijkstra.RelaxLower(g, v, pathWeights', Fr, n, k, m, weightThroughN);
        WitnessRelax(g, v, pathWeights', wit', n, k, m, weightThroughN);
        Dijkstra.LowerOne(pathWeights, pathWeights', m, weightThroughN);
        pathWeights', wit' := pathWeights'[m := weightThroughN], wit'[m := wit'[n] + [m]];
        var changed := heap.ChangePriority(m, weightThroughN);
        assert changed.Pass?;
        Fr := Fr[m := weightThroughN];
      } else {
        Dijkstra.RelaxKeep(g, v, pathWeights', Fr, n, k, m, weightThroughN);
      }
      k := k + 1;
    }
    Dijkstra.Scanned(g, v, pathWeights', Fr, n);
  }

  /** heap.poll() seen as a step of Dijkstra's algorithm: a frontier node
      of least distance leaves the frontier and is settled. */
  method PollNearest(g: Graph, v: NodeId, heap: InternalHeap.InternalMinHeap<NodeId>, pathWeights: map<NodeId, int>)
    returns (n: NodeId)
    requires heap.Valid() && heap.Contents() != map[] && Dijkstra.Inv(g, v, pathWeights, heap.Contents())
    modifies heap
    ensures heap.Valid() && n in old(heap.Contents()) && heap.Contents() == old(heap.Contents()) - {n}
    ensures forall x :: x in old(heap.Contents()) ==> old(heap.Contents())[n] <= old(heap.Contents())[x]
    ensures Dijkstra.Scanning(g, v, pathWeights, heap.Contents(), n, 0)
    ensures n !in Dijkstra.SettledSet(pathWeights, old(heap.Contents())) && n in g
    ensures Dijkstra.SettledSet(pathWeights, heap.Contents()) == Dijkstra.SettledSet(pathWeights, old(heap.Contents())) + {n}
  {
    var polled := heap.Poll();
    n := polled.value;
    Dijkstra.Poll(g, v, pathWeights, old(heap.Contents()), n);
  }

  /** minPathLengthToTarget(start): the least weight of a path from start to
      the target, 0 when start is the target; IllegalStateException when
      the heap runs dry, which happens exactly when the target cannot be
      reached. Without parallel exits some path has exactly that weight. */
  method MinPathLengthToTarget(g: Graph, start: NodeId, target: NodeId) returns (r: Result<int>)
    requires WellFormed(g) && start in g
    ensures r.Err? <==> !Reachable(g, start, target)
    ensures r.Err? ==> r.error == IllegalState
    ensures r.Ok? ==> forall q :: PathFrom(g, q, start, target) ==> r.value <= Weight(g, q)
    ensures r.Ok? && Simple(g) ==> exists q :: PathFrom(g, q, start, target) && Weight(g, q) == r.value
    ensures start == target ==> r == Ok(0)
  {
    var pathWeights: map<NodeId, int> := map[start := 0];
    var heap := new InternalHeap.InternalMinHeap<NodeId>();
    var added := heap.Add(start, 0);
    ghost var wit: map<NodeId, seq<NodeId>> := map[start := [start]];
    ghost var Fr := heap.Contents();
    Dijkstra.Start(g, start);
    assert PathFrom(g, [start], start, start);
    while !heap.IsEmpty()
      invariant fresh(heap) && heap.Valid() && heap.Contents() == Fr
      invariant Dijkstra.Inv(g, start, pathWeights, Fr)
      invariant Witnessed(g, start, pathWeights, wit)
      invariant target !in Dijkstra.SettledSet(pathWeights, Fr)
      decreases |g.Keys - Dijkstra.SettledSet(pathWeights, Fr)|
    {
      var n := PollNearest(g, start, heap, pathWeights);
      if n == target {
        FoundTarget(g, start, target, pathWeights, Fr, wit);
        return Ok(pathWeights[n]);
      }
      Dijkstra.SettleCount(g, Dijkstra.SettledSet(pathWeights, Fr), n);
      Fr := Fr - {n};
      pathWeights, wit := RelaxExits(g, start, heap, pathWeights, wit, n);
      Fr := heap.Contents();
    }
    Dijkstra.Unreachable(g, start, target, pathWeights);
    return Err(IllegalState);
  }
}
