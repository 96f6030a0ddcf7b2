/** The ordering part of the class invariant of app/Heap.java (point 4),
    stated on the sequence b[0..size-1], together with the facts that the two
    bubbling loops rely on. Index arithmetic is the array encoding of a
    complete binary tree: the parent of k > 0 is (k-1)/2, the children of k
    are 2k+1 and 2k+2. */
module HeapOrder {

  /** Heap.Element: a value and its priority. */
  datatype Element<V> = Element(val: V, priority: int)

  /** A value with priority p may sit above one with priority q: p <= q in a
      min-heap, p >= q in a max-heap. */
  predicate Favors(isMax: bool, p: int, q: int)
  {
    if isMax then p >= q else p <= q
  }

  /** The parent of slot k > 0 favours slot k. */
  ghost predicate ParentFavors<V>(s: seq<Element<V>>, isMax: bool, k: int)
    requires 0 < k < |s|
  {
    Favors(isMax, s[(k - 1) / 2].priority, s[k].priority)
  }

  /** Point 4 of the invariant: no child is favoured over its parent. */
  ghost predicate Ordered<V>(s: seq<Element<V>>, isMax: bool)
  {
    forall k :: 0 < k < |s| ==> ParentFavors(s, isMax, k)
  }

  /** What bubbleUp(h) may assume: the order holds except between h and its
      parent, and h's parent already favours h's children. */
  ghost predicate OrderedUpExcept<V>(s: seq<Element<V>>, isMax: bool, h: int)
  {
    && (forall k :: 0 < k < |s| && k != h ==> ParentFavors(s, isMax, k))
    && (0 < h < |s| ==> forall k :: 0 < k < |s| && (k - 1) / 2 == h ==> Favors(isMax, s[(h - 1) / 2].priority, s[k].priority))
  }

  /** What bubbleDown(h) may assume: the order holds except between h and its
      children, and h's parent already favours h's children. */
  ghost predicate OrderedDownExcept<V>(s: seq<Element<V>>, isMax: bool, h: int)
  {
    && (forall k :: 0 < k < |s| && (k - 1) / 2 != h ==> ParentFavors(s, isMax, k))
    && (0 < h < |s| ==> forall k :: 0 < k < |s| && (k - 1) / 2 == h ==> Favors(isMax, s[(h - 1) / 2].priority, s[k].priority))
  }

  /** The sequence with slots i and j exchanged. */
  function Exchanged<T>(s: seq<T>, i: int, j: int): (r: seq<T>)
    requires 0 <= i < |s| && 0 <= j < |s|
    ensures |r| == |s| && r[i] == s[j] && r[j] == s[i]
    ensures forall k :: 0 <= k < |s| && k != i && k != j ==> r[k] == s[k]
  {
    s[i := s[j]][j := s[i]]
  }

  /** An exchange is a permutation. */
  lemma ExchangedPerm<T>(s: seq<T>, i: int, j: int)
    requires 0 <= i < |s| && 0 <= j < |s|
    ensures multiset(Exchanged(s, i, j)) == multiset(s)
  {
  }

  /** Every element of an ordered heap is favoured by the root: b[0] is a best value. */
  lemma {:induction false} RootFavored<V>(s: seq<Element<V>>, isMax: bool, k: int)
    requires Ordered(s, isMax) && 0 <= k < |s|
    ensures Favors(isMax, s[0].priority, s[k].priority)
    decreases k
  {
    if k > 0 {
      RootFavored(s, isMax, (k - 1) / 2);
      assert ParentFavors(s, isMax, k);
    }
  }

  /** One step of bubbleUp: when h is strictly favoured over its parent,
      exchanging the two moves the single defect up to the parent. */
  lemma UpStep<V>(s: seq<Element<V>>, isMax: bool, h: int)
    requires 0 < h < |s| && OrderedUpExcept(s, isMax, h)
    requires !Favors(isMax, s[(h - 1) / 2].priority, s[h].priority)
    ensures OrderedUpExcept(Exchanged(s, h, (h - 1) / 2), isMax, (h - 1) / 2)
  {
    var p := (h - 1) / 2;
    var t := Exchanged(s, h, p);
    forall k | 0 < k < |t| && k != p
      ensures ParentFavors(t, isMax, k)
    {
      if k != h {
        assert ParentFavors(s, isMax, k);
      }
    }
    if p > 0 {
      forall k | 0 < k < |t| && (k - 1) / 2 == p
        ensures Favors(isMax, t[(p - 1) / 2].priority, t[k].priority)
      {
        assert ParentFavors(s, isMax, p);
        if k != h {
          assert ParentFavors(s, isMax, k);
        }
      }
    }
  }

  /** bubbleUp stops correctly: at the root, or when the parent favours h. */
  lemma UpDone<V>(s: seq<Element<V>>, isMax: bool, h: int)
    requires 0 <= h < |s| && OrderedUpExcept(s, isMax, h)
    requires h > 0 ==> Favors(isMax, s[(h - 1) / 2].priority, s[h].priority)
    ensures Ordered(s, isMax)
  {
  }

  /** One step of bubbleDown: when the winning child c (favoured over its
      sibling) is strictly favoured over h, exchanging them moves the defect
      down to c. */
  lemma DownStep<V>(s: seq<Element<V>>, isMax: bool, h: int, c: int)
    requires 0 <= h && 0 < c < |s| && (c - 1) / 2 == h && OrderedDownExcept(s, isMax, h)
    requires forall k :: 0 < k < |s| && (k - 1) / 2 == h ==> Favors(isMax, s[c].priority, s[k].priority)
    requires !Favors(isMax, s[h].priority, s[c].priority)
    ensures OrderedDownExcept(Exchanged(s, h, c), isMax, c)
  {
    var t := Exchanged(s, h, c);
    forall k | 0 < k < |t| && (k - 1) / 2 != c
      ensures ParentFavors(t, isMax, k)
    {
      if k != h && (k - 1) / 2 != h {
        assert ParentFavors(s, isMax, k);
      }
    }
    forall k | 0 < k < |t| && (k - 1) / 2 == c
      ensures Favors(isMax, t[(c - 1) / 2].priority, t[k].priority)
    {
      assert ParentFavors(s, isMax, k);
    }
  }

  /** bubbleDown stops correctly: when h favours all of its children. */
  lemma DownDone<V>(s: seq<Element<V>>, isMax: bool, h: int)
    requires 0 <= h < |s| && OrderedDownExcept(s, isMax, h)
    requires forall k :: 0 < k < |s| && (k - 1) / 2 == h ==> Favors(isMax, s[h].priority, s[k].priority)
    ensures Ordered(s, isMax)
  {
  }

  /** Appending a value to an ordered heap leaves a defect only at the new leaf. */
  lemma AppendIsUpExcept<V>(s: seq<Element<V>>, isMax: bool, x: Element<V>)
    requires Ordered(s, isMax)
    ensures OrderedUpExcept(s + [x], isMax, |s|)
  {
    var t := s + [x];
    forall k | 0 < k < |s|
      ensures ParentFavors(t, isMax, k)
    {
      assert ParentFavors(s, isMax, k);
    }
  }

  /** Moving the last value to the root and dropping the last slot leaves a
      defect only at the root. */
  lemma LastToRootIsDownExcept<V>(s: seq<Element<V>>, isMax: bool)
    requires Ordered(s, isMax) && |s| > 0
    ensures OrderedDownExcept(Exchanged(s, 0, |s| - 1)[..|s| - 1], isMax, 0)
  {
    var t := Exchanged(s, 0, |s| - 1)[..|s| - 1];
    forall k | 0 < k < |t| && (k - 1) / 2 != 0
      ensures ParentFavors(t, isMax, k)
    {
      assert ParentFavors(s, isMax, k);
    }
  }

  /** Changing one priority in an ordered heap to a favoured (or equal)
      one leaves a defect only above it; to a disfavoured one, only below it. */
  lemma ChangedPriority<V>(s: seq<Element<V>>, isMax: bool, h: int, x: Element<V>)
    requires Ordered(s, isMax) && 0 <= h < |s|
    ensures Favors(isMax, x.priority, s[h].priority) ==> OrderedUpExcept(s[h := x], isMax, h)
    ensures Favors(isMax, s[h].priority, x.priority) ==> OrderedDownExcept(s[h := x], isMax, h)
  {
    var t := s[h := x];
    forall k | 0 < k < |t| && k != h && (k - 1) / 2 != h
      ensures ParentFavors(t, isMax, k)
    {
      assert ParentFavors(s, isMax, k);
    }
    if h > 0 {
      forall k | 0 < k < |t| && (k - 1) / 2 == h
        ensures Favors(isMax, t[(h - 1) / 2].priority, t[k].priority)
      {
        assert ParentFavors(s, isMax, h);
        assert ParentFavors(s, isMax, k);
      }
    }
    if Favors(isMax, x.priority, s[h].priority) {
      forall k | 0 < k < |t| && (k - 1) / 2 == h
        ensures ParentFavors(t, isMax, k)
      {
        assert ParentFavors(s, isMax, k);
      }
    }
    if Favors(isMax, s[h].priority, x.priority) && h > 0 {
      assert ParentFavors(s, isMax, h);
      assert ParentFavors(t, isMax, h);
    }
  }

  /** The result of bubbling slot h up: while h is strictly favoured over its
      parent, the two are exchanged; it stops at the root and on a tie. Slots
      at or past the end are left alone (bubbleUp's first guard). */
  function SiftUp<V>(s: seq<Element<V>>, isMax: bool, h: int): (r: seq<Element<V>>)
    requires 0 <= h
    ensures |r| == |s|
    decreases h
  {
    if h == 0 || h >= |s| || Favors(isMax, s[(h - 1) / 2].priority, s[h].priority) then s
    else SiftUp(Exchanged(s, h, (h - 1) / 2), isMax, (h - 1) / 2)
  }

  /** The child of h that bubbleDown compares h with: the right child only
      when it exists and is strictly favoured over the left one, so ties go
      to the left. */
  function WinningChild<V>(s: seq<Element<V>>, isMax: bool, h: int): (c: int)
    requires 0 <= h && 2 * h + 1 < |s|
    ensures c == 2 * h + 1 || c == 2 * h + 2
    ensures 0 < c < |s|
    ensures 2 * h + 2 < |s| && s[2 * h + 1].priority == s[2 * h + 2].priority ==> c == 2 * h + 1
  {
    var k := 2 * h + 1;
    if k + 1 == |s| || Favors(isMax, s[k].priority, s[k + 1].priority) then k else k + 1
  }

  /** The winning child is favoured over every child of h. */
  lemma WinningChildFavored<V>(s: seq<Element<V>>, isMax: bool, h: int)
    requires 0 <= h && 2 * h + 1 < |s|
    ensures (WinningChild(s, isMax, h) - 1) / 2 == h
    ensures forall k :: 0 < k < |s| && (k - 1) / 2 == h ==> Favors(isMax, s[WinningChild(s, isMax, h)].priority, s[k].priority)
  {
  }

  /** The result of bubbling slot h down: while the winning child is
      strictly favoured over h, the two are exchanged; it stops at a leaf and
      on a tie. */
  function SiftDown<V>(s: seq<Element<V>>, isMax: bool, h: int): (r: seq<Element<V>>)
    requires 0 <= h
    ensures |r| == |s|
    decreases |s| - h
  {
    if 2 * h + 1 >= |s| then s
    else
      var c := WinningChild(s, isMax, h);
      if Favors(isMax, s[h].priority, s[c].priority) then s
      else SiftDown(Exchanged(s, h, c), isMax, c)
  }

  /** bubbleUp only rearranges the elements. */
  lemma {:induction false} SiftUpPerm<V>(s: seq<Element<V>>, isMax: bool, h: int)
    requires 0 <= h
    ensures multiset(SiftUp(s, isMax, h)) == multiset(s)
    decreases h
  {
    if !(h == 0 || h >= |s| || Favors(isMax, s[(h - 1) / 2].priority, s[h].priority)) {
      ExchangedPerm(s, h, (h - 1) / 2);
      SiftUpPerm(Exchanged(s, h, (h - 1) / 2), isMax, (h - 1) / 2);
    }
  }

  /** bubbleDown only rearranges the elements. */
  lemma {:induction false} SiftDownPerm<V>(s: seq<Element<V>>, isMax: bool, h: int)
    requires 0 <= h
    ensures multiset(SiftDown(s, isMax, h)) == multiset(s)
    decreases |s| - h
  {
    if 2 * h + 1 < |s| {
      var c := WinningChild(s, isMax, h);
      if !Favors(isMax, s[h].priority, s[c].priority) {
        ExchangedPerm(s, h, c);
        SiftDownPerm(Exchanged(s, h, c), isMax, c);
      }
    }
  }

  /** bubbleUp restores the order: from a single upward defect at h, the
      sifted sequence is a heap. */
  lemma {:induction false} SiftUpOrdered<V>(s: seq<Element<V>>, isMax: bool, h: int)
    requires 0 <= h < |s| && OrderedUpExcept(s, isMax, h)
    ensures Ordered(SiftUp(s, isMax, h), isMax)
    decreases h
  {
    if h == 0 || Favors(isMax, s[(h - 1) / 2].priority, s[h].priority) {
      UpDone(s, isMax, h);
    } else {
      UpStep(s, isMax, h);
      SiftUpOrdered(Exchanged(s, h, (h - 1) / 2), isMax, (h - 1) / 2);
    }
  }

  /** bubbleDown restores the order: from a single downward defect at h, the
      sifted sequence is a heap. */
  lemma {:induction false} SiftDownOrdered<V>(s: seq<Element<V>>, isMax: bool, h: int)
    requires 0 <= h < |s| && OrderedDownExcept(s, isMax, h)
    ensures Ordered(SiftDown(s, isMax, h), isMax)
    decreases |s| - h
  {
    if 2 * h + 1 >= |s| {
      DownDone(s, isMax, h);
    } else {
      var c := WinningChild(s, isMax, h);
      WinningChildFavored(s, isMax, h);
      if Favors(isMax, s[h].priority, s[c].priority) {
        forall k | 0 < k < |s| && (k - 1) / 2 == h
          ensures Favors(isMax, s[h].priority, s[k].priority)
        {
        }
        DownDone(s, isMax, h);
      } else {
        DownStep(s, isMax, h, c);
        SiftDownOrdered(Exchanged(s, h, c), isMax, c);
      }
    }
  }

  /** Point 3 of the invariant of app/Heap.java: the values are all different. */
  ghost predicate DistinctVals<V>(s: seq<Element<V>>)
  {
    forall i, j :: 0 <= i < j < |s| ==> s[i].val != s[j].val
  }

  /** Distinct values: as many values as slots. */
  lemma {:induction false} DistinctCard<V>(s: seq<Element<V>>)
    requires DistinctVals(s)
    ensures |set i | 0 <= i < |s| :: s[i].val| == |s|
  {
    if s != [] {
      var t := s[..|s| - 1];
      DistinctCard(t);
      var st := set i | 0 <= i < |t| :: t[i].val;
      var ss := set i | 0 <= i < |s| :: s[i].val;
      assert ss == st + {s[|s| - 1].val} by {
        forall x | x in ss ensures x in st + {s[|s| - 1].val} {
          var i :| 0 <= i < |s| && s[i].val == x;
          if i < |t| { assert t[i].val == x; }
        }
      }
      assert s[|s| - 1].val !in st;
    }
  }
}
