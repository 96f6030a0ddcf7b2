/** game/Node.java: a node of a cavern's graph. Its exits and neighbours are
    LinkedHashSets, modelled as sequences without repetitions in insertion
    order. Edges are values here (see Edges), so an edge equal in all three
    fields to one already present is not added again. */
module Nodes {
  import opened Wrappers
  import opened Edges
  import Graphs
  import JavaInt
  import Tiles

  /** No element occurs twice. */
  predicate NoDup<T(==)>(s: seq<T>)
  {
    forall i, j :: 0 <= i < j < |s| ==> s[i] != s[j]
  }

  /** LinkedHashSet.add: x is appended unless already present. */
  function SetAdd<T(==,!new)>(s: seq<T>, x: T): (r: seq<T>)
    ensures forall y :: y in r <==> y in s || y == x
    ensures x in s ==> r == s
    ensures x !in s ==> r == s + [x]
    ensures NoDup(s) ==> NoDup(r)
  {
    if x in s then s else s + [x]
  }

  class Node {
    const id: NodeId
    const tile: Tiles.Tile
    var edges: seq<Edge>
    var neighbors: seq<NodeId>

    /** Both collections are sets. */
    ghost predicate Valid()
      reads this
    {
      NoDup(edges) && NoDup(neighbors)
    }

    /** Node(t, numCols): the node of tile t in a grid of numCols columns,
        whose id numbers the tiles row by row. */
    constructor FromTile(t: Tiles.Tile, numCols: int)
      ensures id == t.row * numCols + t.col && tile == t
      ensures edges == [] && neighbors == [] && Valid()
    {
      id := t.row * numCols + t.col;
      tile := t;
      edges, neighbors := [], [];
    }

    /** Node(givenId, t): a node with the given id and no exits. */
    constructor (givenId: NodeId, t: Tiles.Tile)
      ensures id == givenId && tile == t
      ensures edges == [] && neighbors == [] && Valid()
    {
      id := givenId;
      tile := t;
      edges, neighbors := [], [];
    }

    /** addEdge(e): e joins the exits, then e.getOther(this) joins the
        neighbours. When this node is not an endpoint of e, getOther throws
        IllegalArgumentException after e has been added, and the neighbours
        stay as they were. */
    method AddEdge(e: Edge) returns (o: Outcome)
      requires Valid()
      modifies this
      ensures Valid()
      ensures e in edges && forall x :: x in edges <==> x in old(edges) || x == e
      ensures e in old(edges) ==> edges == old(edges)
      ensures e !in old(edges) ==> edges == old(edges) + [e]
      ensures o.Pass? <==> (e.src == id || e.dest == id)
      ensures o.Pass? ==> neighbors == SetAdd(old(neighbors), GetOther(e, id).value)
      ensures o.Pass? && e.src == id ==> e.dest in neighbors
      ensures o.Fail? ==> o.error == IllegalArgument && neighbors == old(neighbors)
    {
      edges := SetAdd(edges, e);
      var other := GetOther(e, id);
      if other.Err? {
        return Fail(other.error);
      }
      neighbors := SetAdd(neighbors, other.value);
      o := Pass;
    }

    /** getEdge(q): the first exit, in insertion order, whose destination
        is q; IllegalArgumentException when no exit leads to q. */
    method GetEdge(q: NodeId) returns (r: Result<Edge>)
      ensures r == Graphs.GetEdge(edges, q)
      ensures r.Ok? ==> r.value in edges && r.value.dest == q
      ensures r.Err? <==> forall e :: e in edges ==> e.dest != q
    {
      var i := 0;
      while i < |edges|
        invariant 0 <= i <= |edges|
        invariant forall j :: 0 <= j < i ==> edges[j].dest != q
      {
        if edges[i].dest == q {
          Graphs.IndexToFinds(edges, q, i);
          return Ok(edges[i]);
        }
        i := i + 1;
      }
      return Err(IllegalArgument);
    }

    /** equals(ob): the same object, or a node with the same id. */
    predicate Equals(ob: Node)
      ensures Equals(ob) <==> id == ob.id
    {
      ob == this || id == ob.id
    }

    /** hashCode(): Objects.hash(id). */
    function HashCode(): (r: int)
      requires JavaInt.IsLong(id)
      ensures JavaInt.IsInt(r)
      ensures 0 <= id <= JavaInt.INT_MAX - 31 ==> r == 31 + id
    {
      JavaInt.SmallLongHash(if 0 <= id <= JavaInt.INT_MAX then id else 0);
      JavaInt.ObjectsHash(id)
    }
  }

  /** equals is equality of ids, and equal nodes have equal hash codes. */
  lemma EqualsById(a: Node, b: Node)
    ensures a.Equals(b) <==> a.id == b.id
    ensures a.Equals(b) <==> b.Equals(a)
    ensures a.Equals(b) && JavaInt.IsLong(a.id) ==> a.HashCode() == b.HashCode()
  {
  }
}
