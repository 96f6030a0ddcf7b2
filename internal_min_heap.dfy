/** game/InternalMinHeap.java: a min-heap of distinct elements kept as a list
    b of elements and a map from each element to its Info record (its index
    in b and its priority). Bubbling is hole-based: the moving element is
    held aside while parents (or children) shift into the gap, and it is
    written once at its final slot. The model views the list with the held
    element written into the gap, and shows that this view evolves exactly
    like the swap-based sift of HeapOrder on a min-heap. */
module InternalHeap {
  import opened Wrappers
  import opened HeapOrder

  /** InternalMinHeap.Info: the index of an element in b and its priority. */
  datatype Info = Info(index: int, priority: int)

  /** Points 1, 5 of the invariant, allowing one slot k whose element's index
      entry may be stale: every element of b has an entry, every slot other
      than k is recorded in its element's entry, every other key is recorded
      at a slot that holds it, and b[k] occurs only at k. With k outside b
      this is the full invariant. */
  ghost predicate IndexedExcept<E>(b: seq<E>, info: map<E, Info>, k: int)
  {
    && (forall i :: 0 <= i < |b| ==> b[i] in info)
    && (forall i :: 0 <= i < |b| && i != k ==> info[b[i]].index == i)
    && (forall e :: e in info && (0 <= k < |b| ==> e != b[k]) ==> 0 <= info[e].index < |b| && b[info[e].index] == e)
    && (0 <= k < |b| ==> forall i :: 0 <= i < |b| && i != k ==> b[i] != b[k])
  }

  /** The full points 1 and 5: b and the map agree on every element. */
  ghost predicate Indexed<E>(b: seq<E>, info: map<E, Info>)
  {
    IndexedExcept(b, info, -1)
  }

  /** The elements of b paired with the priorities the map gives them. */
  ghost function Elems<E>(b: seq<E>, info: map<E, Info>): (r: seq<Element<E>>)
    requires forall i :: 0 <= i < |b| ==> b[i] in info
    ensures |r| == |b|
    ensures forall i :: 0 <= i < |b| ==> r[i] == Element(b[i], info[b[i]].priority)
  {
    seq(|b|, i requires 0 <= i < |b| => Element(b[i], info[b[i]].priority))
  }

  /** The abstract value: each element with its priority. */
  ghost function ContentsOf<E>(info: map<E, Info>): map<E, int>
  {
    map e | e in info :: info[e].priority
  }

  /** Two maps with the same keys and the same priorities; indices may differ. */
  ghost predicate SamePriorities<E>(a: map<E, Info>, c: map<E, Info>)
  {
    a.Keys == c.Keys && forall e :: e in a ==> a[e].priority == c[e].priority
  }

  /** Maps with the same priorities have the same abstract value. */
  lemma SameContents<E>(a: map<E, Info>, c: map<E, Info>)
    requires SamePriorities(a, c)
    ensures ContentsOf(a) == ContentsOf(c)
  {
    assert ContentsOf(a).Keys == ContentsOf(c).Keys;
  }

  /** One shift of the hole-based loops: the element at slot j moves into
      the gap at i and its index entry is set to i; with the held element
      val viewed in the new gap j, the view is the old view with slots i and
      j exchanged. */
  lemma HoleShift<E>(b: seq<E>, info: map<E, Info>, val: E, i: int, j: int)
    requires 0 <= i < |b| && 0 <= j < |b| && i != j && b[j] in info
    requires IndexedExcept(b[i := val], info, i)
    ensures var info2 := info[b[j] := Info(i, info[b[j]].priority)];
      && IndexedExcept(b[i := b[j]][j := val], info2, j)
      && Elems(b[i := b[j]][j := val], info2) == Exchanged(Elems(b[i := val], info), i, j)
      && SamePriorities(info2, info)
  {
    var v := b[i := val];
    var x := b[j];
    assert v[j] == x && v[i] == val && x != val;
    var info2 := info[x := Info(i, info[x].priority)];
    var w := b[i := x][j := val];
    assert w == Exchanged(v, i, j);
    forall e | e in info2 && e != w[j]
      ensures 0 <= info2[e].index < |w| && w[info2[e].index] == e
    {
      if e != x {
        assert info[e].index != i && info[e].index != j;
      }
    }
    assert IndexedExcept(w, info2, j);
    assert Elems(w, info2) == Exchanged(Elems(v, info), i, j);
  }

  /** The last write of the hole-based loops: val is written into its gap and
      its index entry is set; the view does not change and the invariant is
      whole again. */
  lemma HoleFill<E>(b: seq<E>, info: map<E, Info>, val: E, i: int)
    requires 0 <= i < |b| && val in info && IndexedExcept(b[i := val], info, i)
    ensures var info2 := info[val := Info(i, info[val].priority)];
      && Indexed(b[i := val], info2)
      && Elems(b[i := val], info2) == Elems(b[i := val], info)
      && SamePriorities(info2, info)
  {
    var v := b[i := val];
    assert v[i] == val;
    var info2 := info[val := Info(i, info[val].priority)];
    assert Indexed(v, info2);
  }

  /** The writes of add: e appended to b, with an entry giving its index and
      priority p. */
  lemma IndexedAppend<E>(b: seq<E>, info: map<E, Info>, e: E, p: int)
    requires Indexed(b, info) && e !in info
    ensures var info2 := info[e := Info(|b|, p)];
      && IndexedExcept(b + [e], info2, |b|)
      && Elems(b + [e], info2) == Elems(b, info) + [Element(e, p)]
      && ContentsOf(info2) == ContentsOf(info)[e := p]
  {
    var b2, info2 := b + [e], info[e := Info(|b|, p)];
    forall x | x in info2 && x != b2[|b|]
      ensures 0 <= info2[x].index < |b2| && b2[info2[x].index] == x
    {
      assert b[info[x].index] == x;
    }
    assert IndexedExcept(b2, info2, |b|);
    assert Elems(b2, info2) == Elems(b, info) + [Element(e, p)];
  }

  /** The writes of poll: the root's entry removed and the last element moved
      to the root (b just loses its only element when there is one). The
      view is the old one with the last element exchanged into the root and
      the last slot dropped; only the moved element's index is stale. */
  lemma IndexedRemoveRoot<E>(b: seq<E>, info: map<E, Info>)
    requires Indexed(b, info) && |b| > 0
    ensures |b| == 1 ==> info - {b[0]} == map[]
    ensures |b| > 1 ==> IndexedExcept(b[0 := b[|b| - 1]][..|b| - 1], info - {b[0]}, 0)
    ensures |b| > 1 ==>
      Elems(b[0 := b[|b| - 1]][..|b| - 1], info - {b[0]}) == Exchanged(Elems(b, info), 0, |b| - 1)[..|b| - 1]
    ensures ContentsOf(info - {b[0]}) == ContentsOf(info) - {b[0]}
  {
    var n := |b| - 1;
    var info2 := info - {b[0]};
    if n == 0 {
      forall x | x in info ensures x == b[0] {
        assert b[info[x].index] == x;
      }
      assert info2.Keys == {};
    } else {
      var b2 := b[0 := b[n]][..n];
      forall x | x in info2 && x != b2[0]
        ensures 0 <= info2[x].index < |b2| && b2[info2[x].index] == x
      {
        assert b[info[x].index] == x;
        assert info[x].index != 0;
      }
      assert IndexedExcept(b2, info2, 0);
      assert Elems(b2, info2) == Exchanged(Elems(b, info), 0, n)[..n];
    }
  }

  /** The write of changePriority: e's entry gets priority p and keeps
      its index. */
  lemma IndexedSetPriority<E>(b: seq<E>, info: map<E, Info>, e: E, p: int)
    requires Indexed(b, info) && e in info
    ensures var k := info[e].index; var info2 := info[e := Info(k, p)];
      && 0 <= k < |b| && b[k] == e
      && IndexedExcept(b, info2, k)
      && Elems(b, info2) == Elems(b, info)[k := Element(e, p)]
      && ContentsOf(info2) == ContentsOf(info)[e := p]
  {
    var k := info[e].index;
    var info2 := info[e := Info(k, p)];
    assert b[k] == e;
    assert IndexedExcept(b, info2, k);
    assert Elems(b, info2) == Elems(b, info)[k := Element(e, p)];
  }

  /** Point 5: the map has one key per element of b. */
  lemma IndexedCount<E>(b: seq<E>, info: map<E, Info>)
    requires Indexed(b, info)
    ensures |info| == |b| && |ContentsOf(info)| == |b|
  {
    var s := Elems(b, info);
    assert DistinctVals(s) by {
      forall i, j | 0 <= i < j < |s| ensures s[i].val != s[j].val {
        assert info[b[i]].index == i && info[b[j]].index == j;
      }
    }
    DistinctCard(s);
    var vals := set i | 0 <= i < |s| :: s[i].val;
    assert info.Keys == vals by {
      forall e | e in info ensures e in vals {
        assert s[info[e].index].val == e;
      }
    }
    assert ContentsOf(info).Keys == info.Keys;
  }

  class InternalMinHeap<E(==)> {
    var size: int
    var b: seq<E>
    var info: map<E, Info>

    /** The class invariant: points 1 and 5 and the min-heap order (point 4)
        of the elements' priorities. */
    ghost predicate Valid()
      reads this
    {
      size == |b| && Indexed(b, info) && Ordered(Elems(b, info), false)
    }

    /** The abstract value: each element with its priority. */
    ghost function Contents(): map<E, int>
      reads this
    {
      ContentsOf(info)
    }

    /** InternalMinHeap(): an empty heap. */
    constructor ()
      ensures Valid() && Contents() == map[] && b == []
    {
      size := 0;
      b := [];
      info := map[];
    }

    /** size(): the number of elements. */
    function Size(): (r: int)
      reads this
      requires Valid()
      ensures r == |Contents()|
    {
      IndexedCount(b, info);
      size
    }

    /** isEmpty(): whether there are no elements. */
    function IsEmpty(): (r: bool)
      reads this
      requires Valid()
      ensures r <==> Contents() == map[]
    {
      IndexedCount(b, info);
      size == 0
    }

    /** getSmallerChild(q): the left child when there is no right child or
        when the left priority is at most the right one, otherwise the right
        child; either way a child of least priority. */
    function GetSmallerChild(q: int): (r: int)
      reads this
      requires 0 <= q && 2 * q + 1 < size == |b|
      requires b[2 * q + 1] in info && (2 * q + 2 < size ==> b[2 * q + 2] in info)
      ensures r == 2 * q + 1 || r == 2 * q + 2
      ensures r < size
      ensures r == 2 * q + 1 <==> size <= 2 * q + 2 || info[b[2 * q + 1]].priority <= info[b[2 * q + 2]].priority
      ensures forall c :: 2 * q + 1 <= c <= 2 * q + 2 && c < size ==> info[b[r]].priority <= info[b[c]].priority
    {
      var leftIdx := 2 * q + 1;
      var rightIdx := 2 * q + 2;
      if size <= rightIdx then leftIdx
      else if info[b[leftIdx]].priority <= info[b[rightIdx]].priority then leftIdx
      else rightIdx
    }

    /** bubbleUp(k): the element at k moves up past every parent of strictly
        greater priority; parents shift down into the gap. */
    method BubbleUp(k: int)
      requires 0 <= k < size == |b|
      requires IndexedExcept(b, info, k)
      requires OrderedUpExcept(Elems(b, info), false, k)
      modifies this
      ensures size == old(size) && |b| == size && Indexed(b, info)
      ensures Elems(b, info) == SiftUp(old(Elems(b, info)), false, k)
      ensures Ordered(Elems(b, info), false)
      ensures SamePriorities(info, old(info))
    {
      var val := b[k];
      ghost var s0 := Elems(b, info);
      assert b[k := val] == b;
      var i := k;
      while i > 0
        invariant 0 <= i < |b| == size == old(size)
        invariant IndexedExcept(b[i := val], info, i)
        invariant SamePriorities(info, old(info)) && val in info
        invariant SiftUp(Elems(b[i := val], info), false, i) == SiftUp(s0, false, k)
        decreases i
      {
        var parentIdx := (i - 1) / 2;
        var parentVal := b[parentIdx];
        var parentInfo := info[parentVal];
        ghost var v := Elems(b[i := val], info);
        assert v[parentIdx] == Element(parentVal, parentInfo.priority) && v[i] == Element(val, info[val].priority);
        if parentInfo.priority <= info[val].priority {
          break;
        }
        HoleShift(b, info, val, i, parentIdx);
        b := b[i := parentVal];
        info := info[parentVal := Info(i, parentInfo.priority)];
        i := parentIdx;
      }
      HoleFill(b, info, val, i);
      b := b[i := val];
      info := info[val := Info(i, info[val].priority)];
      SiftUpOrdered(s0, false, k);
    }

    /** bubbleDown(k): the element at k moves down past every smaller child
        of strictly smaller priority; children shift up into the gap. */
    method BubbleDown(k: int)
      requires 0 <= k < size == |b|
      requires IndexedExcept(b, info, k)
      requires OrderedDownExcept(Elems(b, info), false, k)
      modifies this
      ensures size == old(size) && |b| == size && Indexed(b, info)
      ensures Elems(b, info) == SiftDown(old(Elems(b, info)), false, k)
      ensures Ordered(Elems(b, info), false)
      ensures SamePriorities(info, old(info))
    {
      var val := b[k];
      ghost var s0 := Elems(b, info);
      assert b[k := val] == b;
      var i := k;
      while 2 * i + 1 < size
        invariant 0 <= i < |b| == size == old(size)
        invariant IndexedExcept(b[i := val], info, i)
        invariant SamePriorities(info, old(info)) && val in info
        invariant SiftDown(Elems(b[i := val], info), false, i) == SiftDown(s0, false, k)
        decreases size - i
      {
        assert b[i := val][2 * i + 1] == b[2 * i + 1];
        assert 2 * i + 2 < size ==> b[i := val][2 * i + 2] == b[2 * i + 2];
        var childIdx := GetSmallerChild(i);
        var childVal := b[childIdx];
        var childInfo := info[childVal];
        ghost var v := Elems(b[i := val], info);
        SmallerChildWins(b, info, val, i, childIdx);
        assert v[childIdx] == Element(childVal, childInfo.priority) && v[i] == Element(val, info[val].priority);
        if info[val].priority <= childInfo.priority {
          break;
        }
        HoleShift(b, info, val, i, childIdx);
        b := b[i := childVal];
        info := info[childVal := Info(i, childInfo.priority)];
        i := childIdx;
      }
      HoleFill(b, info, val, i);
      b := b[i := val];
      info := info[val := Info(i, info[val].priority)];
      SiftDownOrdered(s0, false, k);
    }

    /** The child getSmallerChild picks is the winning child of the view. */
    static lemma SmallerChildWins(b: seq<E>, info: map<E, Info>, val: E, i: int, c: int)
      requires 0 <= i && 2 * i + 1 < |b| && IndexedExcept(b[i := val], info, i)
      requires b[2 * i + 1] in info && (2 * i + 2 < |b| ==> b[2 * i + 2] in info)
      requires c == 2 * i + 1 || c == 2 * i + 2
      requires c == 2 * i + 1 <==> |b| <= 2 * i + 2 || info[b[2 * i + 1]].priority <= info[b[2 * i + 2]].priority
      ensures c == WinningChild(Elems(b[i := val], info), false, i)
    {
      var v := b[i := val];
      assert v[2 * i + 1] == b[2 * i + 1];
      assert 2 * i + 2 < |b| ==> v[2 * i + 2] == b[2 * i + 2];
    }

    /** add(e, p): inserts e with priority p and bubbles it up; an element
        already present is refused with IllegalArgumentException and nothing
        changes. */
    method Add(e: E, p: int) returns (o: Outcome)
      requires Valid()
      modifies this
      ensures Valid()
      ensures o.Fail? <==> e in old(Contents())
      ensures o.Fail? ==> o.error == IllegalArgument && unchanged(this)
      ensures o.Pass? ==> size == old(size) + 1 && Contents() == old(Contents())[e := p]
      ensures o.Pass? ==> Elems(b, info) == SiftUp(old(Elems(b, info)) + [Element(e, p)], false, old(size))
    {
      if e in info {
        return Fail(IllegalArgument);
      }
      ghost var b0, info0 := b, info;
      ghost var s := Elems(b0, info0);
      AppendIsUpExcept(s, false, Element(e, p));
      IndexedAppend(b0, info0, e, p);
      b := b + [e];
      info := info[e := Info(size, p)];
      size := size + 1;
      assert b == b0 + [e] && info == info0[e := Info(|b0|, p)];
      ghost var info1 := info;
      BubbleUp(size - 1);
      SameContents(info, info1);
      o := Pass;
    }

    /** peek(): an element of least priority (b[0]), without change;
        NoSuchElementException when the heap is empty. */
    method Peek() returns (r: Result<E>)
      requires Valid()
      ensures r.Err? <==> Contents() == map[]
      ensures r.Err? ==> r.error == NoSuchElement
      ensures r.Ok? ==> |b| > 0 && r.value == b[0] && r.value in Contents()
      ensures r.Ok? ==> forall x :: x in Contents() ==> Contents()[r.value] <= Contents()[x]
    {
      if b == [] {
        assert Contents() == map[] by {
          IndexedCount(b, info);
        }
        return Err(NoSuchElement);
      }
      RootLeast(b, info);
      r := Ok(b[0]);
    }

    /** The first element of an ordered heap has the least priority. */
    static lemma RootLeast(b: seq<E>, info: map<E, Info>)
      requires Indexed(b, info) && Ordered(Elems(b, info), false) && |b| > 0
      ensures b[0] in ContentsOf(info)
      ensures forall x :: x in ContentsOf(info) ==> ContentsOf(info)[b[0]] <= ContentsOf(info)[x]
    {
      var s := Elems(b, info);
      forall x | x in ContentsOf(info)
        ensures ContentsOf(info)[b[0]] <= ContentsOf(info)[x]
      {
        var j := info[x].index;
        RootFavored(s, false, j);
        assert s[j].priority == info[x].priority;
      }
    }

    /** poll(): removes and returns an element of least priority; the last
        element moves to the front and bubbles down. With one element, b
        becomes empty. NoSuchElementException when the heap is empty. */
    method Poll() returns (r: Result<E>)
      requires Valid()
      modifies this
      ensures Valid()
      ensures r.Err? <==> old(Contents()) == map[]
      ensures r.Err? ==> r.error == NoSuchElement && unchanged(this)
      ensures r.Ok? ==> r.value in old(Contents()) && size == old(size) - 1
      ensures r.Ok? ==> Contents() == old(Contents()) - {r.value}
      ensures r.Ok? ==> forall x :: x in old(Contents()) ==> old(Contents())[r.value] <= old(Contents())[x]
      ensures r.Ok? && old(size) == 1 ==> b == []
      ensures r.Ok? ==> Elems(b, info) == SiftDown(Exchanged(old(Elems(b, info)), 0, old(size) - 1)[..old(size) - 1], false, 0)
    {
      r := Peek();
      if r.Err? {
        return;
      }
      var val := r.value;
      ghost var b0, info0 := b, info;
      ghost var s := Elems(b0, info0);
      ghost var u := Exchanged(s, 0, |s| - 1)[..|s| - 1];
      LastToRootIsDownExcept(s, false);
      IndexedRemoveRoot(b0, info0);
      info := info - {val};
      size := size - 1;
      if size <= 0 {
        b := b[1..];
        assert Elems(b, info) == u == [];
        assert SiftDown(u, false, 0) == [];
      } else {
        b := b[0 := b[size]];
        b := b[..size];
        assert b == b0[0 := b0[|b0| - 1]][..|b0| - 1] && info == info0 - {b0[0]};
        ghost var info1 := info;
        BubbleDown(0);
        assert Elems(b, info) == SiftDown(u, false, 0);
        SameContents(info, info1);
      }
    }

    /** changePriority(e, p): gives e priority p, then bubbles it up when p is
        strictly smaller than the old priority and down otherwise, equal
        priorities included; IllegalArgumentException when e is absent. */
    method ChangePriority(e: E, p: int) returns (o: Outcome)
      requires Valid()
      modifies this
      ensures Valid() && size == old(size)
      ensures o.Fail? <==> e !in old(Contents())
      ensures o.Fail? ==> o.error == IllegalArgument && unchanged(this)
      ensures o.Pass? ==> Contents() == old(Contents())[e := p]
      ensures o.Pass? && p < old(Contents())[e] ==>
        Elems(b, info) == SiftUp(old(Elems(b, info))[old(info)[e].index := Element(e, p)], false, old(info)[e].index)
      ensures o.Pass? && p >= old(Contents())[e] ==>
        Elems(b, info) == SiftDown(old(Elems(b, info))[old(info)[e].index := Element(e, p)], false, old(info)[e].index)
    {
      if e !in info {
        return Fail(IllegalArgument);
      }
      var inf := info[e];
      ghost var b0, info0 := b, info;
      ghost var s := Elems(b0, info0);
      ChangedPriority(s, false, inf.index, Element(e, p));
      IndexedSetPriority(b0, info0, e, p);
      info := info[e := Info(inf.index, p)];
      ghost var info1 := info;
      assert old(Contents())[e] == inf.priority && old(info)[e].index == inf.index;
      o := Pass;
      if p < inf.priority {
        BubbleUp(inf.index);
      } else {
        BubbleDown(inf.index);
      }
      SameContents(info, info1);
    }
  }
}
