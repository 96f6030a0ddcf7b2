/** app/Heap.java: a min-heap or max-heap of distinct values, kept as an array
    b[0..size-1] (a complete binary tree, see HeapOrder) together with a map
    from each value to its index in b (the field `map` of the Java class, here
    `pos`). Priorities are integers. */
module PriorityHeap {
  import opened Wrappers
  import opened HeapOrder

  /** Points 3, 5 and 6 of the class invariant, on the sequence b[0..size-1]
      and the index map: every slot's value is a key mapped to that slot, and
      every key is mapped to a slot holding it. Hence the values are distinct. */
  ghost predicate Indexed<V>(s: seq<Element<V>>, pos: map<V, int>)
  {
    && (forall i :: 0 <= i < |s| ==> s[i].val in pos && pos[s[i].val] == i)
    && (forall v :: v in pos ==> 0 <= pos[v] < |s| && s[pos[v]].val == v)
  }

  /** The abstract value of an indexed heap: each value with its priority. */
  ghost function ContentsOf<V>(s: seq<Element<V>>, pos: map<V, int>): map<V, int>
    requires Indexed(s, pos)
  {
    map v | v in pos :: s[pos[v]].priority
  }

  /** Point 5: the map has one key per slot. */
  lemma IndexedCount<V>(s: seq<Element<V>>, pos: map<V, int>)
    requires Indexed(s, pos)
    ensures |pos| == |s| && |ContentsOf(s, pos)| == |s|
  {
    var vals := set i | 0 <= i < |s| :: s[i].val;
    assert pos.Keys == vals;
    assert DistinctVals(s) by {
      forall i, j | 0 <= i < j < |s| ensures s[i].val != s[j].val {
        assert pos[s[i].val] == i && pos[s[j].val] == j;
      }
    }
    DistinctCard(s);
    assert pos.Keys == ContentsOf(s, pos).Keys;
  }

  /** The root of an ordered heap holds a value of best priority. */
  lemma RootBest<V>(s: seq<Element<V>>, pos: map<V, int>, isMax: bool)
    requires Indexed(s, pos) && Ordered(s, isMax) && |s| > 0
    ensures s[0].val in ContentsOf(s, pos)
    ensures forall u :: u in ContentsOf(s, pos) ==> Favors(isMax, ContentsOf(s, pos)[s[0].val], ContentsOf(s, pos)[u])
  {
    assert s[0].val in pos && pos[s[0].val] == 0;
    forall u | u in ContentsOf(s, pos)
      ensures Favors(isMax, ContentsOf(s, pos)[s[0].val], ContentsOf(s, pos)[u])
    {
      RootFavored(s, isMax, pos[u]);
    }
  }

  /** Two indexed heaps holding the same elements have the same contents,
      wherever the elements sit. */
  lemma SameContents<V>(s: seq<Element<V>>, pos: map<V, int>, t: seq<Element<V>>, q: map<V, int>)
    requires Indexed(s, pos) && Indexed(t, q) && multiset(s) == multiset(t)
    ensures ContentsOf(s, pos) == ContentsOf(t, q)
  {
    forall v | v in pos ensures v in q && t[q[v]] == s[pos[v]] {
      var e := s[pos[v]];
      assert e in multiset(t);
      var j :| 0 <= j < |t| && t[j] == e;
    }
    forall v | v in q ensures v in pos {
      var e := t[q[v]];
      assert e in multiset(s);
      var j :| 0 <= j < |s| && s[j] == e;
    }
    assert pos.Keys == q.Keys;
  }

  /** What add does before bubbling: a new value in a new last slot. */
  lemma IndexedAppend<V>(s: seq<Element<V>>, pos: map<V, int>, x: Element<V>)
    requires Indexed(s, pos) && x.val !in pos
    ensures Indexed(s + [x], pos[x.val := |s|])
    ensures ContentsOf(s + [x], pos[x.val := |s|]) == ContentsOf(s, pos)[x.val := x.priority]
  {
    var t, q := s + [x], pos[x.val := |s|];
    forall i | 0 <= i < |t| ensures t[i].val in q && q[t[i].val] == i {
      if i < |s| {
        assert t[i] == s[i];
      }
    }
    assert Indexed(t, q);
  }

  /** What swap does: the two slots and their two map entries are exchanged;
      the contents do not change. */
  lemma IndexedExchange<V>(s: seq<Element<V>>, pos: map<V, int>, h: int, k: int)
    requires Indexed(s, pos) && 0 <= h < |s| && 0 <= k < |s|
    ensures Indexed(Exchanged(s, h, k), pos[s[k].val := h][s[h].val := k])
    ensures ContentsOf(Exchanged(s, h, k), pos[s[k].val := h][s[h].val := k]) == ContentsOf(s, pos)
  {
    var t, q := Exchanged(s, h, k), pos[s[k].val := h][s[h].val := k];
    assert pos.Keys == q.Keys;
    forall v | v in q ensures 0 <= q[v] < |t| && t[q[v]].val == v {
      if v != s[h].val && v != s[k].val {
        assert pos[v] != h && pos[v] != k;
      }
    }
    assert Indexed(t, q);
    forall v | v in q ensures t[q[v]].priority == s[pos[v]].priority {
      if v != s[h].val && v != s[k].val {
        assert pos[v] != h && pos[v] != k;
      }
    }
  }

  /** What poll does after its swap: the last slot and its value go. */
  lemma IndexedRemoveLast<V>(s: seq<Element<V>>, pos: map<V, int>)
    requires Indexed(s, pos) && |s| > 0
    ensures Indexed(s[..|s| - 1], pos - {s[|s| - 1].val})
    ensures ContentsOf(s[..|s| - 1], pos - {s[|s| - 1].val}) == ContentsOf(s, pos) - {s[|s| - 1].val}
  {
    var t, q := s[..|s| - 1], pos - {s[|s| - 1].val};
    forall v | v in q ensures 0 <= q[v] < |t| && t[q[v]].val == v {
      assert pos[v] != |s| - 1;
    }
    assert Indexed(t, q);
  }

  /** What poll does before bubbling: the last value moves to the root and
      the root's value leaves; the defect is at the root only. */
  lemma RemoveRoot<V>(s: seq<Element<V>>, pos: map<V, int>, isMax: bool)
    requires Indexed(s, pos) && Ordered(s, isMax) && |s| > 0
    ensures var u := Exchanged(s, 0, |s| - 1)[..|s| - 1];
      var q := pos[s[|s| - 1].val := 0][s[0].val := |s| - 1] - {s[0].val};
      && Indexed(u, q) && OrderedDownExcept(u, isMax, 0)
      && ContentsOf(u, q) == ContentsOf(s, pos) - {s[0].val}
  {
    var t := Exchanged(s, 0, |s| - 1);
    IndexedExchange(s, pos, 0, |s| - 1);
    IndexedRemoveLast(t, pos[s[|s| - 1].val := 0][s[0].val := |s| - 1]);
    LastToRootIsDownExcept(s, isMax);
  }

  /** What updatePriority does before bubbling: one slot gets a new priority. */
  lemma IndexedSetPriority<V>(s: seq<Element<V>>, pos: map<V, int>, h: int, p: int)
    requires Indexed(s, pos) && 0 <= h < |s|
    ensures Indexed(s[h := Element(s[h].val, p)], pos)
    ensures ContentsOf(s[h := Element(s[h].val, p)], pos) == ContentsOf(s, pos)[s[h].val := p]
  {
    var t := s[h := Element(s[h].val, p)];
    assert Indexed(t, pos);
    forall v | v in pos ensures ContentsOf(t, pos)[v] == ContentsOf(s, pos)[s[h].val := p][v] {
      if v != s[h].val {
        assert pos[v] != h;
      }
    }
  }

  class Heap<V(==,0)> {
    const isMaxHeap: bool
    var b: array<Element<V>>
    var size: int
    var pos: map<V, int>

    /** Points 1-3, 5 and 6 of the class invariant. A non-empty backing array
        lets ensureCapacity make room by doubling. */
    ghost predicate Synced()
      reads this, b
    {
      0 <= size <= b.Length && 0 < b.Length && Indexed(b[..size], pos)
    }

    /** The whole class invariant: synced, and point 4, the heap order. */
    ghost predicate Valid()
      reads this, b
    {
      Synced() && Ordered(b[..size], isMaxHeap)
    }

    /** The abstract value: each value in the heap with its priority. */
    ghost function Contents(): map<V, int>
      reads this, b
      requires Synced()
    {
      ContentsOf(b[..size], pos)
    }

    /** Heap(isMax): an empty heap of capacity 10. */
    constructor (isMax: bool)
      ensures Valid() && fresh(b)
      ensures isMaxHeap == isMax && size == 0 && b.Length == 10 && Contents() == map[]
    {
      isMaxHeap := isMax;
      b := new Element<V>[10];
      size := 0;
      pos := map[];
    }

    /** compareTo(p1, p2): 0 on equal priorities, 1 when p1 belongs strictly
        above p2, -1 when strictly below. */
    function CompareTo(p1: int, p2: int): (r: int)
      ensures r == 0 || r == 1 || r == -1
      ensures r == 0 <==> p1 == p2
      ensures r >= 0 <==> Favors(isMaxHeap, p1, p2)
      ensures r <= 0 <==> Favors(isMaxHeap, p2, p1)
    {
      if p1 == p2 then 0
      else if isMaxHeap then (if p1 > p2 then 1 else -1)
      else if p1 < p2 then 1 else -1
    }

    /** Exchanging the arguments of compareTo negates the result. */
    lemma CompareToAntisymmetric(p1: int, p2: int)
      ensures CompareTo(p1, p2) == -CompareTo(p2, p1)
    {
    }

    /** compareTo(h, k): compareTo on the priorities of b[h] and b[k]. */
    function CompareAt(h: int, k: int): (r: int)
      reads this, b
      requires 0 <= h < size <= b.Length && 0 <= k < size
      ensures r >= 0 <==> Favors(isMaxHeap, b[h].priority, b[k].priority)
      ensures r <= 0 <==> Favors(isMaxHeap, b[k].priority, b[h].priority)
    {
      CompareTo(b[h].priority, b[k].priority)
    }

    /** size(): the number of values in the heap. */
    function Size(): (r: int)
      reads this, b
      requires Synced()
      ensures r == |Contents()|
    {
      IndexedCount(b[..size], pos);
      size
    }

    /** swap(h, k): exchanges b[h] and b[k] and records the two new indices
        in the map; nothing else changes. */
    method Swap(h: int, k: int)
      requires Synced() && 0 <= h < size && 0 <= k < size
      modifies this, b
      ensures Synced() && b == old(b) && size == old(size)
      ensures b[..size] == Exchanged(old(b[..size]), h, k)
      ensures pos == old(pos)[old(b[k]).val := h][old(b[h]).val := k]
      ensures Contents() == old(Contents())
    {
      IndexedExchange(b[..size], pos, h, k);
      b[h], b[k] := b[k], b[h];
      pos := pos[b[h].val := h][b[k].val := k];
      assert b[..size] == Exchanged(old(b[..size]), h, k);
    }

    /** ensureCapacity(): doubles the backing array exactly when it is full,
        keeping b[0..size-1]. */
    method EnsureCapacity()
      requires Valid()
      modifies this
      ensures Valid() && size == old(size) && pos == old(pos)
      ensures b[..size] == old(b[..size]) && Contents() == old(Contents())
      ensures old(size) == old(b.Length) ==> fresh(b) && b.Length == 2 * old(b.Length)
      ensures old(size) < old(b.Length) ==> b == old(b)
      ensures size < b.Length
    {
      if size == b.Length {
        var nb := new Element<V>[2 * b.Length];
        forall i | 0 <= i < b.Length {
          nb[i] := b[i];
        }
        assert nb[..size] == b[..size];
        b := nb;
      }
    }

    /** bubbleUp(h): moves b[h] up to its place; it does nothing when h is
        past the end. */
    method BubbleUp(h: int)
      requires Synced() && 0 <= h
      requires h < size ==> OrderedUpExcept(b[..size], isMaxHeap, h)
      modifies this, b
      ensures Synced() && b == old(b) && size == old(size)
      ensures b[..size] == SiftUp(old(b[..size]), isMaxHeap, h)
      ensures h < size ==> Ordered(b[..size], isMaxHeap)
      ensures h >= size ==> unchanged(this, b)
      ensures Contents() == old(Contents())
    {
      if h >= size {
        return;
      }
      ghost var s0, p0 := b[..size], pos;
      var i := h;
      while i > 0
        invariant Synced() && b == old(b) && size == old(size)
        invariant 0 <= i < size
        invariant SiftUp(b[..size], isMaxHeap, i) == SiftUp(s0, isMaxHeap, h)
        decreases i
      {
        var p := (i - 1) / 2;
        if CompareAt(i, p) <= 0 {
          break;
        }
        ghost var s := b[..size];
        assert SiftUp(s, isMaxHeap, i) == SiftUp(Exchanged(s, i, p), isMaxHeap, p);
        Swap(i, p);
        i := p;
      }
      SiftUpOrdered(s0, isMaxHeap, h);
      SiftUpPerm(s0, isMaxHeap, h);
      SameContents(s0, p0, b[..size], pos);
    }

    /** bubbleDown(h): moves b[h] down to its place, preferring the left
        child on a tie; it does nothing when h is out of range. */
    method BubbleDown(h: int)
      requires Synced()
      requires 0 <= h < size ==> OrderedDownExcept(b[..size], isMaxHeap, h)
      modifies this, b
      ensures Synced() && b == old(b) && size == old(size)
      ensures 0 <= h ==> b[..size] == SiftDown(old(b[..size]), isMaxHeap, h)
      ensures 0 <= h < size ==> Ordered(b[..size], isMaxHeap)
      ensures h < 0 || size <= h ==> unchanged(this, b)
      ensures Contents() == old(Contents())
    {
      if h < 0 || size <= h {
        return;
      }
      ghost var s0, p0 := b[..size], pos;
      var i := h;
      var k := 2 * i + 1;
      while k < size
        invariant Synced() && b == old(b) && size == old(size)
        invariant 0 <= i < size && k == 2 * i + 1
        invariant SiftDown(b[..size], isMaxHeap, i) == SiftDown(s0, isMaxHeap, h)
        decreases size - i
      {
        var uc := if k + 1 == size || CompareAt(k, k + 1) >= 0 then k else k + 1;
        ghost var s := b[..size];
        WinningChildAt(i, k);
        assert uc == WinningChild(s, isMaxHeap, i);
        if CompareAt(i, uc) >= 0 {
          break;
        }
        assert SiftDown(s, isMaxHeap, i) == SiftDown(Exchanged(s, i, uc), isMaxHeap, uc) by {
          assert s[i] == b[i] && s[uc] == b[uc];
        }
        Swap(i, uc);
        i := uc;
        k := 2 * i + 1;
      }
      SiftDownOrdered(s0, isMaxHeap, h);
      SiftDownPerm(s0, isMaxHeap, h);
      SameContents(s0, p0, b[..size], pos);
    }

    /** The child that bubbleDown picks is the winning child of HeapOrder. */
    lemma WinningChildAt(i: int, k: int)
      requires 0 <= i && k == 2 * i + 1 && k < size <= b.Length
      ensures WinningChild(b[..size], isMaxHeap, i) == if k + 1 == size || CompareAt(k, k + 1) >= 0 then k else k + 1
    {
      var s := b[..size];
      assert s[k] == b[k];
      assert k + 1 < size ==> s[k + 1] == b[k + 1];
    }

    /** add(v, p): inserts v with priority p and bubbles it up; a value
        already present is refused with IllegalArgumentException and nothing
        changes. */
    method Add(v: V, p: int) returns (o: Outcome)
      requires Valid()
      modifies this, b
      ensures Valid() && (b == old(b) || fresh(b))
      ensures o.Fail? <==> v in old(Contents())
      ensures o.Fail? ==> o.error == IllegalArgument
      ensures o.Fail? ==> unchanged(this) && unchanged(b)
      ensures o.Pass? ==> size == old(size) + 1 && Contents() == old(Contents())[v := p]
      ensures o.Pass? ==> b[..size] == SiftUp(old(b[..size]) + [Element(v, p)], isMaxHeap, old(size))
    {
      if v in pos {
        return Fail(IllegalArgument);
      }
      EnsureCapacity();
      ghost var s := b[..size];
      AppendIsUpExcept(s, isMaxHeap, Element(v, p));
      IndexedAppend(s, pos, Element(v, p));
      pos := pos[v := size];
      b[size] := Element(v, p);
      size := size + 1;
      assert b[..size] == s + [Element(v, p)];
      BubbleUp(size - 1);
      o := Pass;
    }

    /** peek(): a value of best priority (the root), without changing the
        heap; NoSuchElementException when the heap is empty. */
    method Peek() returns (r: Result<V>)
      requires Valid()
      ensures r.Err? <==> Contents() == map[]
      ensures r.Err? ==> r.error == NoSuchElement
      ensures r.Ok? ==> r.value in Contents()
      ensures r.Ok? ==> 0 < size && r.value == b[0].val
      ensures r.Ok? ==> forall u :: u in Contents() ==> Favors(isMaxHeap, Contents()[r.value], Contents()[u])
    {
      IndexedCount(b[..size], pos);
      if size <= 0 {
        return Err(NoSuchElement);
      }
      RootBest(b[..size], pos, isMaxHeap);
      r := Ok(b[0].val);
    }

    /** poll(): removes and returns the root, a value of best priority, then
        restores the order with bubbleDown(0); NoSuchElementException when the
        heap is empty. */
    method Poll() returns (r: Result<V>)
      requires Valid()
      modifies this, b
      ensures Valid() && b == old(b)
      ensures r.Err? <==> old(Contents()) == map[]
      ensures r.Err? ==> r.error == NoSuchElement && unchanged(this, b)
      ensures r.Ok? ==> r.value in old(Contents()) && size == old(size) - 1
      ensures r.Ok? ==> Contents() == old(Contents()) - {r.value}
      ensures r.Ok? ==> forall u :: u in old(Contents()) ==> Favors(isMaxHeap, old(Contents())[r.value], old(Contents())[u])
      ensures r.Ok? ==> b[..size] == SiftDown(Exchanged(old(b[..size]), 0, old(size) - 1)[..old(size) - 1], isMaxHeap, 0)
    {
      if size <= 0 {
        assert Contents() == map[] by {
          IndexedCount(b[..size], pos);
        }
        return Err(NoSuchElement);
      }
      var v := b[0].val;
      ghost var s, p0 := b[..size], pos;
      ghost var u := Exchanged(s, 0, |s| - 1)[..|s| - 1];
      ghost var q := p0[s[|s| - 1].val := 0][s[0].val := |s| - 1] - {s[0].val};
      RemoveRoot(s, p0, isMaxHeap);
      Swap(0, size - 1);
      pos, size := pos - {v}, size - 1;
      assert b[..size] == u && pos == q;
      BubbleDown(0);
      assert b[..size] == SiftDown(u, isMaxHeap, 0);
      RootBest(s, p0, isMaxHeap);
      r := Ok(v);
    }

    /** updatePriority(v, p): gives v priority p, then bubbles it up when p is
        strictly better than the old priority, down when strictly worse, and
        not at all when equal; IllegalArgumentException when v is absent. */
    method UpdatePriority(v: V, p: int) returns (o: Outcome)
      requires Valid()
      modifies this, b
      ensures Valid() && b == old(b) && size == old(size)
      ensures o.Fail? <==> v !in old(Contents())
      ensures o.Fail? ==> o.error == IllegalArgument && unchanged(this, b)
      ensures o.Pass? ==> Contents() == old(Contents())[v := p]
      ensures o.Pass? && p == old(Contents())[v] ==> unchanged(this, b)
      ensures o.Pass? && CompareTo(p, old(Contents())[v]) > 0 ==>
        b[..size] == SiftUp(old(b[..size])[old(pos)[v] := Element(v, p)], isMaxHeap, old(pos)[v])
      ensures o.Pass? && CompareTo(p, old(Contents())[v]) < 0 ==>
        b[..size] == SiftDown(old(b[..size])[old(pos)[v] := Element(v, p)], isMaxHeap, old(pos)[v])
    {
      if v !in pos {
        return Fail(IllegalArgument);
      }
      var index := pos[v];
      var oldP := b[index].priority;
      ghost var s := b[..size];
      ChangedPriority(s, isMaxHeap, index, Element(v, p));
      IndexedSetPriority(s, pos, index, p);
      b[index] := Element(v, p);
      assert b[..size] == s[index := Element(v, p)];
      o := Pass;
      var t := CompareTo(p, oldP);
      if t == 0 {
        return;
      }
      if t < 0 {
        BubbleDown(index);
      } else {
        BubbleUp(index);
      }
    }
  }
}
