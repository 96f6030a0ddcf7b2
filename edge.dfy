/** game/Edge.java: an immutable, directed, weighted edge between two nodes.
    Nodes are represented by their ids: the cavern creates one Node object per
    id, so the reference comparisons of the Java code coincide with id
    comparisons. */
module Edges {
  import opened Wrappers

  type NodeId = int

  /** `src` and `dest` are the endpoints, `length` the weight fixed at
      construction (all three fields are final in Java). */
  datatype Edge = Edge(src: NodeId, dest: NodeId, length: int)

  /** Edge.getOther: the endpoint that is not `n`. The source is tested first,
      so for a self-loop the result is the destination. A node that is not an
      endpoint raises IllegalArgumentException. */
  function GetOther(e: Edge, n: NodeId): (r: Result<NodeId>)
    ensures r.Ok? <==> (n == e.src || n == e.dest)
    ensures r.Ok? ==> {n, r.value} == {e.src, e.dest}
    ensures e.src == n ==> r == Ok(e.dest)
    ensures r.Err? ==> r.error == IllegalArgument
  {
    if e.src == n then Ok(e.dest)
    else if e.dest == n then Ok(e.src)
    else Err(IllegalArgument)
  }

  /** The second Edge constructor: the edge `e` carried through the node
      isomorphism `iso`, with the same length. */
  function MapThrough(e: Edge, iso: map<NodeId, NodeId>): (r: Edge)
    requires e.src in iso && e.dest in iso
    ensures r.length == e.length
    ensures r.src == iso[e.src] && r.dest == iso[e.dest]
  {
    Edge(iso[e.src], iso[e.dest], e.length)
  }

  /** Carrying an edge through an injective isomorphism commutes with getOther. */
  lemma MapThroughGetOther(e: Edge, iso: map<NodeId, NodeId>, n: NodeId)
    requires e.src in iso && e.dest in iso && n in iso
    requires forall x, y :: x in iso && y in iso && iso[x] == iso[y] ==> x == y
    ensures GetOther(e, n).Ok? ==> GetOther(MapThrough(e, iso), iso[n]) == Ok(iso[GetOther(e, n).value])
    ensures GetOther(e, n).Err? ==> GetOther(MapThrough(e, iso), iso[n]).Err?
  {
  }
}
