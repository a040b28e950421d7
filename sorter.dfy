/** The Sorter class's in-place sorts: HeapSort (over the heap engine) and InsertionSort. */
module Sorter {
  import opened Elements
  import opened HeapOrder
  import Heap

  datatype SortOrder = Ascending | Descending

  /** HeapSort builds a max-heap to sort ascending and a min-heap to sort descending: in that heap
      b may sit above a exactly when a comes no later than b in the sorted output. */
  function HeapOrderFor(order: SortOrder): (o: PriorityOrder)
    ensures forall a, b :: Ordered(o, b, a) <==> (if order == Ascending then Le(a, b) else Le(b, a))
  {
    if order == Ascending then Max else Min
  }

  /** Every later element may sit above every earlier one in an `o`-heap: ascending (nulls
      first) for Max, descending (nulls last) for Min. */
  predicate SortedBy(o: PriorityOrder, s: seq<Elem>) {
    forall a, b :: 0 <= a < b < |s| ==> Ordered(o, s[b], s[a])
  }

  predicate SortedIn(order: SortOrder, s: seq<Elem>) {
    SortedBy(HeapOrderFor(order), s)
  }

  lemma SortedTail(o: PriorityOrder, x: seq<Elem>)
    requires |x| > 0 && SortedBy(o, x)
    ensures SortedBy(o, x[1..])
  {
    forall a, b | 0 <= a < b < |x| - 1
      ensures Ordered(o, x[1..][b], x[1..][a])
    {
      assert x[1..][b] == x[b + 1] && x[1..][a] == x[a + 1];
    }
  }

  /** Two sorts of one non-empty list start with the same element: each head is dominated by the
      other. */
  lemma SortedHeads(o: PriorityOrder, x: seq<Elem>, y: seq<Elem>)
    requires |x| > 0 && |y| > 0 && SortedBy(o, x) && SortedBy(o, y) && multiset(x) == multiset(y)
    ensures x[0] == y[0]
  {
    assert x[0] in multiset(y);
    var j :| 0 <= j < |y| && y[j] == x[0];
    OrderFacts(o, y[0], y[0], y[0]);
    assert Ordered(o, x[0], y[0]);
    assert y[0] in multiset(x);
    var i :| 0 <= i < |x| && x[i] == y[0];
    OrderFacts(o, x[0], x[0], x[0]);
    assert Ordered(o, y[0], x[0]);
    OrderFacts(o, x[0], y[0], x[0]);
  }

  /** A sorted permutation is unique: any two sorts of one list agree element for element. */
  lemma {:induction false} SortedPermutationUnique(o: PriorityOrder, x: seq<Elem>, y: seq<Elem>)
    requires SortedBy(o, x) && SortedBy(o, y) && multiset(x) == multiset(y)
    ensures x == y
    decreases |x|
  {
    assert |x| == |multiset(x)| == |multiset(y)| == |y|;
    if |x| > 0 {
      SortedHeads(o, x, y);
      assert x == [x[0]] + x[1..] && y == [y[0]] + y[1..];
      assert multiset(x[1..]) == multiset(x) - multiset{x[0]};
      assert multiset(y[1..]) == multiset(y) - multiset{y[0]};
      SortedTail(o, x);
      SortedTail(o, y);
      SortedPermutationUnique(o, x[1..], y[1..]);
    }
  }

  // ---------------------------------------------------------------- HeapSort

  /** The slots above `index` are in place: each dominates every slot before it. */
  predicate SortedAbove(o: PriorityOrder, s: seq<Elem>, index: int) {
    forall a, b :: 0 <= a < b < |s| && index < b ==> Ordered(o, s[b], s[a])
  }

  /** One round of HeapSort's loop on the heap [0, index]: swap the root to slot index and sift
      the new root down within [0, index). The prefix is a heap again, slot index holds the old
      root, the slots above index stay, and every prefix slot holds an element of the old
      [0, index] that the old root dominates. */
  lemma HeapSortRound(o: PriorityOrder, s: seq<Elem>, index: nat)
    requires 0 < index < |s| && IsHeap(o, s, index + 1)
    ensures var r := SiftDown(o, Swap(s, 0, index), 0, index);
      && IsHeap(o, r, index)
      && r[index] == s[0]
      && (forall a :: 0 <= a < index ==>
            Ordered(o, s[0], r[a]) && exists j :: 0 <= j <= index && r[a] == s[j])
  {
    var t := Swap(s, 0, index);
    var r := SiftDown(o, t, 0, index);
    RootSwappedOut(o, s, index);
    SiftDownRestores(o, t, 0, 0, index);
    PrefixMultiset(r, t, index);
    forall a | 0 <= a < index
      ensures Ordered(o, s[0], r[a]) && exists j :: 0 <= j <= index && r[a] == s[j]
    {
      SlotFromHeap(o, s, index, r, a);
    }
  }

  /** Swapping the root of the heap [0, index] with slot index leaves [0, index) ordered except
      below the root. */
  lemma RootSwappedOut(o: PriorityOrder, s: seq<Elem>, index: nat)
    requires 0 < index < |s| && IsHeap(o, s, index + 1)
    ensures HeapExcept(o, Swap(s, 0, index), 0, 0, index)
  {
    var t := Swap(s, 0, index);
    forall j | 0 < j < index && Up(j) != 0
      ensures Ordered(o, t[Up(j)], t[j])
    {
      assert Ordered(o, s[Up(j)], s[j]);
    }
  }

  /** A slot of a rearrangement of the heap [0, index] (with its root swapped out to slot index)
      holds one of the heap's elements, which the root dominates. */
  lemma SlotFromHeap(o: PriorityOrder, s: seq<Elem>, index: nat, r: seq<Elem>, a: nat)
    requires 0 < index < |s| && IsHeap(o, s, index + 1) && a < index <= |r|
    requires multiset(r[..index]) == multiset(Swap(s, 0, index)[..index])
    ensures Ordered(o, s[0], r[a]) && exists j :: 0 <= j <= index && r[a] == s[j]
  {
    var t := Swap(s, 0, index);
    assert r[..index][a] == r[a];
    assert r[a] in multiset(t[..index]);
    var i :| 0 <= i < index && t[i] == r[a];
    var j := if i == 0 then index else i;
    assert r[a] == s[j];
    HeapRootDominates(o, s, index + 1, j);
  }

  /** The round moves the root into slot index, so one more slot is in place. */
  lemma SortedAboveStep(o: PriorityOrder, s: seq<Elem>, index: nat)
    requires 0 < index < |s| && IsHeap(o, s, index + 1) && SortedAbove(o, s, index)
    ensures SortedAbove(o, SiftDown(o, Swap(s, 0, index), 0, index), index - 1)
  {
    var r := SiftDown(o, Swap(s, 0, index), 0, index);
    HeapSortRound(o, s, index);
    forall a, b | 0 <= a < b < |r| && index <= b
      ensures Ordered(o, r[b], r[a])
    {
      if b > index && a < index {
        var j :| 0 <= j <= index && r[a] == s[j];
        assert Ordered(o, s[b], s[j]);
      }
    }
  }

  /** A whole round of HeapSort's loop keeps its invariant with one slot fewer in the heap. */
  lemma HeapSortStep(o: PriorityOrder, s: seq<Elem>, index: nat)
    requires 0 < index < |s| && IsHeap(o, s, index + 1) && SortedAbove(o, s, index)
    ensures var r := SiftDown(o, Swap(s, 0, index), 0, index);
      IsHeap(o, r, index) && SortedAbove(o, r, index - 1) && multiset(r) == multiset(s)
  {
    HeapSortRound(o, s, index);
    SortedAboveStep(o, s, index);
  }

  /** The body of HeapSort's loop: swap the root behind the heap [0, index], then heapify the
      root within the shrunken heap [0, index). */
  method MoveRootBehind(o: PriorityOrder, data: ElemList, index: nat)
    requires 0 < index < |data.items| && IsHeap(o, data.items, index + 1) && SortedAbove(o, data.items, index)
    modifies data
    ensures data.items == SiftDown(o, Swap(old(data.items), 0, index), 0, index)
    ensures IsHeap(o, data.items, index) && SortedAbove(o, data.items, index - 1)
    ensures multiset(data.items) == multiset(old(data.items))
  {
    ghost var s := data.items;
    var tempRef := data.items[0];
    data.items := data.items[0 := data.items[index]];
    data.items := data.items[index := tempRef];
    assert data.items == Swap(s, 0, index);
    Heap.Heapify(o, data, 0, index);
    HeapSortStep(o, s, index);
  }

  /** HeapSort: build a heap, then repeatedly move the root behind the shrinking heap. */
  method HeapSort(data: ElemList, order: SortOrder)
    modifies data
    ensures SortedIn(order, data.items)
    ensures multiset(data.items) == multiset(old(data.items))
    ensures |old(data.items)| <= 1 ==> data.items == old(data.items)
  {
    var o := HeapOrderFor(order);
    var heapSize := |data.items|;
    Heap.BuildHeap(o, data);
    var index := |data.items| - 1;
    while index > 0
      invariant -1 <= index < |data.items| && heapSize == index + 1
      invariant IsHeap(o, data.items, index + 1) && SortedAbove(o, data.items, index)
      invariant multiset(data.items) == multiset(old(data.items))
      invariant |old(data.items)| <= 1 ==> data.items == old(data.items)
    {
      heapSize := heapSize - 1;
      MoveRootBehind(o, data, index);
      index := index - 1;
    }
  }

  // ---------------------------------------------------------------- InsertionSort

  /** Slots lo .. hi - 1 ascend. */
  predicate AscendsIn(s: seq<Elem>, lo: int, hi: int) {
    forall a, b :: lo <= a < b < hi && 0 <= a && b < |s| ==> Le(s[a], s[b])
  }

  /** One round of InsertionSort's outer loop, as ShiftGreater and the final store leave it: the
      key from slot keyIndex lands in slot p + 1, the slots p + 1 .. keyIndex - 1 (all greater
      than the key) move up by one, and the rest stay. The first keyIndex + 1 slots then ascend,
      and nothing is lost or added. */
  lemma InsertionRound(s: seq<Elem>, keyIndex: nat, p: int, r: seq<Elem>)
    requires 0 < keyIndex < |s| == |r| && -1 <= p < keyIndex
    requires AscendsIn(s, 0, keyIndex)
    requires p >= 0 ==> Le(s[p], s[keyIndex])
    requires forall j :: p + 1 <= j < keyIndex ==> Lt(s[keyIndex], s[j])
    requires forall j :: 0 <= j <= p ==> r[j] == s[j]
    requires r[p + 1] == s[keyIndex]
    requires forall j :: p + 2 <= j <= keyIndex ==> r[j] == s[j - 1]
    requires forall j :: keyIndex < j < |s| ==> r[j] == s[j]
    ensures AscendsIn(r, 0, keyIndex + 1)
    ensures multiset(r) == multiset(s)
  {
    forall i, j | 0 <= i < j < keyIndex + 1
      ensures Le(r[i], r[j])
    {
      if j <= p {
      } else if j == p + 1 {
        assert i == p || Le(s[i], s[p]);
      } else if i <= p {
        assert Le(s[i], s[j - 1]);
      } else if i == p + 1 {
        assert Lt(s[keyIndex], s[j - 1]);
      } else {
        assert Le(s[i - 1], s[j - 1]);
      }
    }
    RoundPermutes(s, keyIndex, p, r);
  }

  /** Moving one element from after a block to before it keeps the multiset. */
  lemma KeyMoved(a: seq<Elem>, key: Elem, b: seq<Elem>, c: seq<Elem>)
    ensures multiset(a + [key] + b + c) == multiset(a + b + [key] + c)
  {
    calc {
      multiset(a + [key] + b + c);
      multiset(a) + multiset{key} + multiset(b) + multiset(c);
      multiset(a) + multiset(b) + multiset{key} + multiset(c);
      multiset(a + b + [key] + c);
    }
  }

  /** The round only moves the key down past the shifted run: the list is a permutation of before. */
  lemma RoundPermutes(s: seq<Elem>, keyIndex: nat, p: int, r: seq<Elem>)
    requires 0 < keyIndex < |s| == |r| && -1 <= p < keyIndex
    requires forall j :: 0 <= j <= p ==> r[j] == s[j]
    requires r[p + 1] == s[keyIndex]
    requires forall j :: p + 2 <= j <= keyIndex ==> r[j] == s[j - 1]
    requires forall j :: keyIndex < j < |s| ==> r[j] == s[j]
    ensures multiset(r) == multiset(s)
  {
    var a, key, b, c := s[..p + 1], s[keyIndex], s[p + 1..keyIndex], s[keyIndex + 1..];
    var t := a + [key] + b + c;
    forall j | 0 <= j < |r|
      ensures r[j] == t[j]
    {
      if j <= p {
      } else if j == p + 1 {
      } else if j <= keyIndex {
        assert t[j] == s[p + 1..keyIndex][j - p - 2];
      } else {
        assert t[j] == s[keyIndex + 1..][j - keyIndex - 1];
      }
    }
    assert r == t;
    assert s == a + b + [key] + c by {
      assert s == s[..keyIndex] + [key] + c;
      assert s[..keyIndex] == a + b;
    }
    KeyMoved(a, key, b, c);
  }

  /** InsertionSort's inner loop for the key at slot keyIndex: move each preceding slot up by one
      while it is non-null and greater than the key, and return the last slot moved from minus
      one. The moved slots are exactly the run just below keyIndex that is greater than the key;
      the slot where the loop stopped is null or at most the key. */
  method ShiftGreater(data: ElemList, keyIndex: nat, key: Elem) returns (priorIndex: int)
    requires 0 < keyIndex < |data.items|
    modifies data
    ensures -1 <= priorIndex < keyIndex && |data.items| == |old(data.items)|
    ensures forall j :: 0 <= j <= priorIndex ==> data.items[j] == old(data.items)[j]
    ensures forall j :: priorIndex + 2 <= j <= keyIndex ==> data.items[j] == old(data.items)[j - 1]
    ensures forall j :: keyIndex < j < |data.items| ==> data.items[j] == old(data.items)[j]
    ensures forall j :: priorIndex + 1 <= j < keyIndex ==> Lt(key, old(data.items)[j])
    ensures priorIndex >= 0 ==> Le(old(data.items)[priorIndex], key)
  {
    priorIndex := keyIndex - 1;
    while priorIndex > -1 && data.items[priorIndex] != Null && CompareTo(data.items[priorIndex], key) > 0
      invariant -1 <= priorIndex < keyIndex
      invariant |data.items| == |old(data.items)|
      invariant forall j :: 0 <= j <= priorIndex ==> data.items[j] == old(data.items)[j]
      invariant forall j :: priorIndex + 2 <= j <= keyIndex ==> data.items[j] == old(data.items)[j - 1]
      invariant forall j :: keyIndex < j < |data.items| ==> data.items[j] == old(data.items)[j]
      invariant forall j :: priorIndex + 1 <= j < keyIndex ==> Lt(key, old(data.items)[j])
    {
      data.items := data.items[priorIndex + 1 := data.items[priorIndex]];
      priorIndex := priorIndex - 1;
    }
  }

  /** InsertionSort: lists of fewer than two elements are left alone; otherwise each key is moved
      left past the non-null elements greater than it (the loop stops at a null or a smaller or
      equal element). */
  method InsertionSort(data: ElemList)
    modifies data
    ensures SortedIn(Ascending, data.items)
    ensures multiset(data.items) == multiset(old(data.items))
    ensures |old(data.items)| < 2 ==> data.items == old(data.items)
  {
    if |data.items| < 2 {
      return;
    }
    var keyIndex := 1;
    while keyIndex < |data.items|
      invariant 1 <= keyIndex <= |data.items| == |old(data.items)|
      invariant AscendsIn(data.items, 0, keyIndex)
      invariant multiset(data.items) == multiset(old(data.items))
    {
      ghost var s := data.items;
      var key := data.items[keyIndex];
      var priorIndex := ShiftGreater(data, keyIndex, key);
      data.items := data.items[priorIndex + 1 := key];
      InsertionRound(s, keyIndex, priorIndex, data.items);
      keyIndex := keyIndex + 1;
    }
  }

  // ---------------------------------------------------------------- the sorts together

  /** HeapSort (ascending) and InsertionSort agree on every list: both leave its unique sorted
      permutation. */
  method SortsAgree(s: seq<Elem>) returns (byHeap: seq<Elem>, byInsertion: seq<Elem>)
    ensures byHeap == byInsertion
    ensures SortedIn(Ascending, byHeap) && multiset(byHeap) == multiset(s)
  {
    var heapData := new ElemList(s);
    HeapSort(heapData, Ascending);
    byHeap := heapData.items;
    var insertionData := new ElemList(s);
    InsertionSort(insertionData);
    byInsertion := insertionData.items;
    SortedPermutationUnique(Max, byHeap, byInsertion);
  }

  function Sample(): seq<Elem> {
    [Val(45), Val(25), Val(4), Val(88), Val(96), Val(18), Val(101), Val(7)]
  }

  function SampleUp(): seq<Elem> {
    [Val(4), Val(7), Val(18), Val(25), Val(45), Val(88), Val(96), Val(101)]
  }

  function SampleDown(): seq<Elem> {
    [Val(101), Val(96), Val(88), Val(45), Val(25), Val(18), Val(7), Val(4)]
  }

  /** The test data sorted by hand is sorted ... */
  lemma SampleSorted()
    ensures SortedBy(Max, SampleUp()) && SortedBy(Min, SampleDown())
  {
    SampleUpSorted(SampleUp());
    SampleDownSorted(SampleDown());
  }

  lemma SampleUpSorted(s: seq<Elem>)
    requires s == [Val(4), Val(7), Val(18), Val(25), Val(45), Val(88), Val(96), Val(101)]
    ensures SortedBy(Max, s)
  {
  }

  lemma SampleDownSorted(s: seq<Elem>)
    requires s == [Val(101), Val(96), Val(88), Val(45), Val(25), Val(18), Val(7), Val(4)]
    ensures SortedBy(Min, s)
  {
  }

  /** ... and a permutation of the sample. */
  lemma SamplePermutes()
    ensures multiset(Sample()) == multiset(SampleUp()) == multiset(SampleDown())
  {
    var p0, p1, p2, p3, p4, p5, p6, p7 := [Val(45)], [Val(25)], [Val(4)], [Val(88)], [Val(96)], [Val(18)], [Val(101)], [Val(7)];
    assert Sample() == p0 + p1 + p2 + p3 + p4 + p5 + p6 + p7;
    assert SampleUp() == p2 + p7 + p5 + p1 + p0 + p3 + p4 + p6;
    assert SampleDown() == p6 + p4 + p3 + p0 + p1 + p5 + p7 + p2;
    Rearranged(p0, p1, p2, p3, p4, p5, p6, p7);
    Reversed(p2, p7, p5, p1, p0, p3, p4, p6);
  }

  /** The sample's order and the ascending order, on pieces: a rearrangement. */
  lemma Rearranged(p0: seq<Elem>, p1: seq<Elem>, p2: seq<Elem>, p3: seq<Elem>,
                   p4: seq<Elem>, p5: seq<Elem>, p6: seq<Elem>, p7: seq<Elem>)
    ensures multiset(p0 + p1 + p2 + p3 + p4 + p5 + p6 + p7) == multiset(p2 + p7 + p5 + p1 + p0 + p3 + p4 + p6)
  {
  }

  lemma Reversed(p0: seq<Elem>, p1: seq<Elem>, p2: seq<Elem>, p3: seq<Elem>,
                 p4: seq<Elem>, p5: seq<Elem>, p6: seq<Elem>, p7: seq<Elem>)
    ensures multiset(p0 + p1 + p2 + p3 + p4 + p5 + p6 + p7) == multiset(p7 + p6 + p5 + p4 + p3 + p2 + p1 + p0)
  {
  }

  /** HeapSort on a fresh list, ascending, then the same list again, descending. */
  method HeapSortBothWays(s: seq<Elem>) returns (ascending: seq<Elem>, descending: seq<Elem>)
    ensures SortedIn(Ascending, ascending) && multiset(ascending) == multiset(s)
    ensures SortedIn(Descending, descending) && multiset(descending) == multiset(s)
  {
    var data := new ElemList(s);
    HeapSort(data, Ascending);
    ascending := data.items;
    HeapSort(data, Descending);
    descending := data.items;
  }

  /** The HeapSort tests: the sample sorted ascending, then the result sorted descending. */
  method HeapSortScenario() returns (ascending: seq<Elem>, descending: seq<Elem>)
    ensures ascending == SampleUp() && descending == SampleDown()
  {
    ascending, descending := HeapSortBothWays(Sample());
    SampleSorted();
    SamplePermutes();
    SortedPermutationUnique(Max, ascending, SampleUp());
    SortedPermutationUnique(Min, descending, SampleDown());
  }

  /** The InsertionSort test on the sample. */
  method InsertionSortScenario() returns (sorted: seq<Elem>)
    ensures sorted == SampleUp()
  {
    var data := new ElemList(Sample());
    InsertionSort(data);
    sorted := data.items;
    SampleSorted();
    SamplePermutes();
    SortedPermutationUnique(Max, sorted, SampleUp());
  }

  /** The null test's input and its sorted order, on pieces: a rearrangement. */
  lemma NullsRearranged(q0: seq<Elem>, q1: seq<Elem>, q2: seq<Elem>, q3: seq<Elem>)
    ensures multiset(q0 + q1 + q2 + q3) == multiset(q1 + q3 + q2 + q0)
  {
  }

  /** The tests with nulls: both sorts put the two nulls first. */
  method NullsScenario() returns (byInsertion: seq<Elem>, byHeap: seq<Elem>)
    ensures byInsertion == byHeap == [Null, Null, Val(23), Val(43)]
  {
    var input := [Val(43)] + [Null] + [Val(23)] + [Null];
    var expected := [Null] + [Null] + [Val(23)] + [Val(43)];
    NullsRearranged([Val(43)], [Null], [Val(23)], [Null]);
    NullsSorted(expected);
    byHeap, byInsertion := SortsAgree(input);
    SortedPermutationUnique(Max, byHeap, expected);
  }

  lemma NullsSorted(s: seq<Elem>)
    requires s == [Null] + [Null] + [Val(23)] + [Val(43)]
    ensures s == [Null, Null, Val(23), Val(43)] && SortedBy(Max, s)
  {
  }
}
