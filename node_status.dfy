/** game/NodeStatus.java: what the hunter sees of a neighbouring node while
    hunting, its id and its Manhattan distance to the orb. Both fields are
    final, so a status is a value. */
module NodeStatuses {
  import opened Edges
  import JavaInt

  datatype NodeStatus = NodeStatus(id: NodeId, distance: int)

  /** compareTo(other): by distance first (Integer.compare), then by id
      (Long.compare). */
  function CompareTo(a: NodeStatus, b: NodeStatus): (r: int)
    ensures r == -1 || r == 0 || r == 1
    ensures r < 0 <==> a.distance < b.distance || (a.distance == b.distance && a.id < b.id)
    ensures r == 0 <==> a == b
  {
    if a.distance != b.distance then JavaInt.Compare(a.distance, b.distance)
    else JavaInt.Compare(a.id, b.id)
  }

  /** compareTo is a total order: swapping the arguments negates the sign,
      and it is transitive. */
  lemma CompareToOrder(a: NodeStatus, b: NodeStatus, c: NodeStatus)
    ensures CompareTo(a, b) == -CompareTo(b, a)
    ensures CompareTo(a, b) < 0 && CompareTo(b, c) < 0 ==> CompareTo(a, c) < 0
    ensures CompareTo(a, b) <= 0 && CompareTo(b, c) <= 0 ==> CompareTo(a, c) <= 0
  {
  }

  /** equals(ob): the same id, whatever the distances. */
  function Equals(a: NodeStatus, b: NodeStatus): (r: bool)
    ensures r <==> a.id == b.id
    ensures CompareTo(a, b) == 0 ==> r
  {
    a.id == b.id
  }

  /** hashCode(): Objects.hash(id), so equal statuses hash alike. */
  function HashCode(a: NodeStatus): (r: int)
    requires JavaInt.IsLong(a.id)
    ensures JavaInt.IsInt(r)
    ensures 0 <= a.id <= JavaInt.INT_MAX - 31 ==> r == 31 + a.id
    ensures forall b :: Equals(a, b) ==> r == JavaInt.ObjectsHash(b.id)
  {
    JavaInt.SmallLongHash(if 0 <= a.id <= JavaInt.INT_MAX then a.id else 0);
    JavaInt.ObjectsHash(a.id)
  }

  /** equals and compareTo disagree: two statuses of one node at different
      distances are equal, yet compareTo does not return 0 for them. */
  lemma EqualsIsNotCompareZero()
    ensures exists a, b :: Equals(a, b) && CompareTo(a, b) != 0
  {
    var a, b := NodeStatus(7, 1), NodeStatus(7, 2);
    assert Equals(a, b) && CompareTo(a, b) == -1;
  }
}
