/** The static Heap class: in-place routines over a list and an explicit heap size.
    Each Max/Min pair is one method taking the PriorityOrder; what it leaves in the
    list is the matching function of module HeapOrder. */
module Heap {
  import opened Elements
  import opened HeapOrder

  /** MaxHeapify / MinHeapify: take the strictly more extreme in-range child, swap, recurse. */
  method Heapify(o: PriorityOrder, data: ElemList, index: nat, heapSize: int)
    requires heapSize <= |data.items|
    modifies data
    ensures data.items == SiftDown(o, old(data.items), index, heapSize)
    ensures multiset(data.items) == multiset(old(data.items))
    ensures forall j :: 0 <= j < |data.items| && (heapSize <= j || !InSubtree(index, j)) ==>
              data.items[j] == old(data.items)[j]
    ensures (SubHeap(o, old(data.items), HeapLeft(index), heapSize) && SubHeap(o, old(data.items), HeapRight(index), heapSize))
              ==> SubHeap(o, data.items, index, heapSize)
    ensures HeapFrom(o, old(data.items), index + 1, heapSize) ==> HeapFrom(o, data.items, index, heapSize)
    decreases heapSize - index
  {
    ghost var s := data.items;
    var largest := index;
    var left := HeapLeft(index);
    var right := HeapRight(index);
    if left < heapSize && Picks(o, data.items[left], data.items[index]) {
      largest := left;
    }
    if right < heapSize && Picks(o, data.items[right], data.items[largest]) {
      largest := right;
    }
    assert largest == Pick(o, s, index, heapSize);
    if largest != index {
      var tempRef := data.items[index];
      data.items := data.items[index := data.items[largest]];
      data.items := data.items[largest := tempRef];
      Heapify(o, data, largest, heapSize);
    }
    assert data.items == SiftDown(o, s, index, heapSize);
    SiftDownPromises(o, s, index, heapSize);
  }

  /** BuildMaxHeap / BuildMinHeap: heapify every internal node, from the last one up to the root. */
  method BuildHeap(o: PriorityOrder, data: ElemList)
    modifies data
    ensures data.items == Build(o, old(data.items))
    ensures IsHeap(o, data.items, |data.items|)
    ensures |data.items| == |old(data.items)| && multiset(data.items) == multiset(old(data.items))
    ensures IsHeap(o, old(data.items), |old(data.items)|) ==> data.items == old(data.items)
  {
    var heapSize := |data.items|;
    var index := heapSize / 2 - 1;
    while index > -1
      invariant -1 <= index <= heapSize / 2 - 1
      invariant |data.items| == heapSize
      invariant BuildFrom(o, data.items, index) == Build(o, old(data.items))
    {
      Heapify(o, data, index, heapSize);
      index := index - 1;
    }
    BuildIsHeap(o, old(data.items));
    if IsHeap(o, old(data.items), |old(data.items)|) {
      BuildNoop(o, old(data.items));
    }
  }

  /** ExtractMax / ExtractMin: IndexOutOfRangeException when heapSize <= 0; the list index throws when
      the slot heapSize - 1 does not exist; otherwise the old root is returned and the list is left
      as AfterExtract. The caller decrements its own size. */
  method Extract(o: PriorityOrder, data: ElemList, heapSize: int) returns (r: Result<Elem>)
    modifies data
    ensures heapSize <= 0 ==> r == Failure(IndexOutOfRange) && data.items == old(data.items)
    ensures 0 < heapSize && |old(data.items)| < heapSize ==>
              r == Failure(ArgumentOutOfRange) && data.items == old(data.items)
    ensures 0 < heapSize <= |old(data.items)| ==>
              r == Success(old(data.items)[0]) && data.items == AfterExtract(o, old(data.items), heapSize - 1)
    ensures 0 < heapSize <= |old(data.items)| && IsHeap(o, old(data.items), heapSize) ==>
              && (forall j :: 0 <= j < heapSize ==> Ordered(o, r.value, old(data.items)[j]))
              && IsHeap(o, data.items, heapSize - 1)
              && multiset(data.items[..heapSize - 1]) == multiset(old(data.items)[..heapSize]) - multiset{r.value}
              && data.items[heapSize - 1..] == old(data.items)[heapSize - 1..]
  {
    var size := heapSize - 1;
    if size < 0 {
      return Failure(IndexOutOfRange);
    }
    if |data.items| == 0 || size >= |data.items| {
      return Failure(ArgumentOutOfRange);
    }
    ghost var s := data.items;
    var max := data.items[0];
    data.items := data.items[0 := data.items[size]];
    if size > 0 {
      Heapify(o, data, 0, size);
    }
    r := Success(max);
    if IsHeap(o, s, heapSize) {
      forall j | 0 <= j < heapSize
        ensures Ordered(o, max, s[j])
      {
        HeapRootDominates(o, s, heapSize, j);
      }
      AfterExtractHeap(o, s, size);
    }
  }

  /** MaxIncrease / MinDecrease: the guard, the overwrite, then the climb along i >> 1. */
  method IncreaseKey(o: PriorityOrder, data: ElemList, index: int, item: Elem) returns (thrown: Option<Exn>)
    modifies data
    ensures Effect(data.items, thrown) == IncreaseKeyEffect(o, old(data.items), index, item)
    ensures thrown == None ==>
              && 0 <= index < |old(data.items)| && |data.items| == |old(data.items)|
              && multiset(data.items) == multiset(old(data.items)[index := item])
              && (forall j :: 0 <= j < |data.items| && !OnChain(index, j) ==> data.items[j] == old(data.items)[j])
  {
    if item.Null? {
      return Some(Argument);
    }
    if index < 0 || index >= |data.items| {
      return Some(ArgumentOutOfRange);
    }
    var c := CompareTo(item, data.items[index]);
    if (o == Max && c > 0) || (o == Min && c < 0) {
      return Some(Argument);
    }
    data.items := data.items[index := item];
    ghost var start := data.items;
    var i: nat := index;
    var parent := HeapParent(i);
    while i > 0 && Rises(o, data.items[i], data.items[parent])
      invariant i < |data.items| && parent == HeapParent(i)
      invariant SiftUp(o, data.items, i) == SiftUp(o, start, index)
      decreases i
    {
      var tempRef := data.items[i];
      data.items := data.items[i := data.items[parent]];
      data.items := data.items[parent := tempRef];
      i := parent;
      parent := HeapParent(i);
    }
    IncreaseKeyMoves(o, old(data.items), index, item);
    return None;
  }

  /** MaxInsert / MinInsert: write or append the sentinel, then run the key change. The caller
      increments its own size. */
  method Insert(o: PriorityOrder, data: ElemList, item: Elem, sentinel: Elem, heapSize: int)
    returns (thrown: Option<Exn>)
    modifies data
    ensures Effect(data.items, thrown) == InsertEffect(o, old(data.items), item, sentinel, heapSize)
    ensures heapSize == |old(data.items)| ==>
              && |data.items| == |old(data.items)| + 1
              && (thrown == None <==> item.Val? && Ordered(o, sentinel, item))
              && (thrown == None ==> multiset(data.items) == multiset(old(data.items)) + multiset{item})
  {
    var size := heapSize + 1;
    if size < 0 {
      return Some(ArgumentOutOfRange);
    }
    if size < |data.items| {
      data.items := data.items[size := sentinel];
    } else {
      data.items := data.items + [sentinel];
    }
    thrown := IncreaseKey(o, data, size - 1, item);
    if heapSize == |old(data.items)| {
      InsertAppends(o, old(data.items), item, sentinel);
    }
  }

  // ---------------------------------------------------------------- containment search

  /** A child comparing this way with the item may hold the item below it (greater for Max). */
  predicate Toward(o: PriorityOrder, c: int) {
    if o == Max then c > 0 else c < 0
  }

  /** A root or child comparing this way with the item cannot have it below (smaller for Max). */
  predicate Away(o: PriorityOrder, c: int) {
    if o == Max then c < 0 else c > 0
  }

  /** MaxContains / MinContains: at the root, a match answers true and a root on the far side of
      the item answers false; then ContainsChildren. Reading a slot past Count throws. */
  function Contains(o: PriorityOrder, s: seq<Elem>, item: Elem, index: nat, heapSize: int): (r: Result<bool>)
    ensures r == Success(true) ==> exists j :: index <= j < heapSize && j < |s| && s[j] == item
    ensures r.Failure? ==> r.error == ArgumentOutOfRange && |s| < heapSize
    decreases heapSize - index, 1
  {
    if index >= heapSize then Success(false)
    else if index == 0 && |s| == 0 then Failure(ArgumentOutOfRange)
    else if index == 0 && s[0].Null? && item.Null? then Success(true)
    else if index == 0 && s[0].Val? && CompareTo(s[0], item) == 0 then Success(true)
    else if index == 0 && s[0].Val? && Away(o, CompareTo(s[0], item)) then Success(false)
    else ContainsChildren(o, s, item, index, heapSize)
  }

  /** The part of MaxContains / MinContains below the node: a child equal to the item (a null
      child for a null item) answers true; a child is searched only when it compares Toward the
      item; a null child is never searched. */
  function ContainsChildren(o: PriorityOrder, s: seq<Elem>, item: Elem, index: nat, heapSize: int): (r: Result<bool>)
    requires index < heapSize
    ensures r == Success(true) ==> exists j :: index < j < heapSize && j < |s| && s[j] == item
    ensures r.Failure? ==> r.error == ArgumentOutOfRange && |s| < heapSize
    decreases heapSize - index, 0
  {
    var left := HeapLeft(index);
    if left < heapSize && left >= |s| then Failure(ArgumentOutOfRange)
    else if left < heapSize && s[left].Null? && item.Null? then Success(true)
    else
      var leftComp := if left < heapSize && s[left].Val? then CompareTo(s[left], item) else 0;
      if left < heapSize && s[left].Val? && leftComp == 0 then Success(true)
      else
        var right := HeapRight(index);
        if right < heapSize && right >= |s| then Failure(ArgumentOutOfRange)
        else if right < heapSize && s[right].Null? && item.Null? then Success(true)
        else
          var rightComp := if right < heapSize && s[right].Val? then CompareTo(s[right], item) else 0;
          if right < heapSize && s[right].Val? && rightComp == 0 then Success(true)
          else if Away(o, leftComp) && Away(o, rightComp) then Success(false)
          else
            var leftResult := if Toward(o, leftComp) then Contains(o, s, item, left, heapSize) else Success(false);
            if leftResult.Failure? then leftResult
            else if leftResult.value then Success(true)
            else if Toward(o, rightComp) then Contains(o, s, item, right, heapSize)
            else Success(false)
  }

  /** No slot of [0, n) holds null. */
  ghost predicate NullFree(s: seq<Elem>, n: int)
    requires n <= |s|
  {
    forall j :: 0 <= j < n ==> s[j].Val?
  }

  /** The subtree rooted at i, cut at n, holds x. */
  ghost predicate SubtreeHas(s: seq<Elem>, x: Elem, i: nat, n: int)
    requires n <= |s|
    decreases n - i
  {
    i < n && (s[i] == x || SubtreeHas(s, x, HeapLeft(i), n) || SubtreeHas(s, x, HeapRight(i), n))
  }

  lemma {:induction false} SubtreeHasSound(s: seq<Elem>, x: Elem, i: nat, n: int)
    requires n <= |s| && SubtreeHas(s, x, i, n)
    ensures x in s[..n]
    decreases n - i
  {
    if s[i] == x {
      assert s[..n][i] == x;
    } else if SubtreeHas(s, x, HeapLeft(i), n) {
      SubtreeHasSound(s, x, HeapLeft(i), n);
    } else {
      SubtreeHasSound(s, x, HeapRight(i), n);
    }
  }

  lemma {:induction false} SubtreeHasUpward(s: seq<Elem>, x: Elem, i: nat, n: int)
    requires n <= |s| && SubtreeHas(s, x, i, n)
    ensures SubtreeHas(s, x, 0, n)
    decreases i
  {
    if i > 0 {
      var p := Up(i);
      assert i == HeapLeft(p) || i == HeapRight(p);
      assert SubtreeHas(s, x, p, n);
      SubtreeHasUpward(s, x, p, n);
    }
  }

  /** Below a node dominated by a bound b, nothing equals an x that b does not dominate. */
  lemma {:induction false} NotInSubtree(o: PriorityOrder, s: seq<Elem>, x: Elem, c: nat, n: int, b: Elem)
    requires n <= |s| && IsHeap(o, s, n) && c < n
    requires Ordered(o, b, s[c]) && !Ordered(o, b, x)
    ensures !SubtreeHas(s, x, c, n)
    decreases n - c
  {
    var l, r := HeapLeft(c), HeapRight(c);
    if l < n {
      assert Up(l) == c;
      OrderFacts(o, b, s[c], s[l]);
      NotInSubtree(o, s, x, l, n, b);
    }
    if r < n {
      assert Up(r) == c;
      OrderFacts(o, b, s[c], s[r]);
      NotInSubtree(o, s, x, r, n, b);
    }
  }

  /** A child that neither matches the item nor compares Toward it cannot have the item below it. */
  lemma ChildPruned(o: PriorityOrder, s: seq<Elem>, x: Elem, c: nat, n: int)
    requires n <= |s| && IsHeap(o, s, n) && c < n && (o == Max || NullFree(s, n))
    requires !(s[c].Null? && x.Null?)
    requires s[c].Val? ==> CompareTo(s[c], x) != 0 && !Toward(o, CompareTo(s[c], x))
    ensures !SubtreeHas(s, x, c, n)
  {
    OrderFacts(o, s[c], s[c], x);
    NotInSubtree(o, s, x, c, n, s[c]);
  }

  /** Below node i the search answers exactly whether a child subtree holds the item. */
  lemma {:induction false} ChildrenExact(o: PriorityOrder, s: seq<Elem>, x: Elem, i: nat, n: int)
    requires n <= |s| && IsHeap(o, s, n) && i < n && (o == Max || NullFree(s, n))
    ensures ContainsChildren(o, s, x, i, n)
         == Success(SubtreeHas(s, x, HeapLeft(i), n) || SubtreeHas(s, x, HeapRight(i), n))
    decreases n - i, 0
  {
    var l, r := HeapLeft(i), HeapRight(i);
    if !(l < n && s[l] == x) && !(r < n && s[r] == x) {
      if l < n {
        ChildSearchExact(o, s, x, l, n);
      }
      if r < n {
        ChildSearchExact(o, s, x, r, n);
      }
    }
  }

  /** For a child that does not match the item, the search's answer for that child (searched
      when it compares Toward the item, skipped otherwise) is whether its subtree holds the item. */
  lemma {:induction false} ChildSearchExact(o: PriorityOrder, s: seq<Elem>, x: Elem, c: nat, n: int)
    requires n <= |s| && IsHeap(o, s, n) && 0 < c < n && (o == Max || NullFree(s, n))
    requires s[c] != x
    ensures var cc := if s[c].Val? then CompareTo(s[c], x) else 0;
      (if Toward(o, cc) then Contains(o, s, x, c, n) else Success(false)) == Success(SubtreeHas(s, x, c, n))
    decreases n - c, 1
  {
    var cc := if s[c].Val? then CompareTo(s[c], x) else 0;
    if Toward(o, cc) {
      ChildrenExact(o, s, x, c, n);
    } else {
      ChildPruned(o, s, x, c, n);
    }
  }

  /** MaxContains over a max-heap, and MinContains over a null-free min-heap, answer exactly
      whether the item occurs among the first heapSize slots. */
  lemma ContainsExact(o: PriorityOrder, s: seq<Elem>, x: Elem, n: int)
    requires 0 <= n <= |s| && IsHeap(o, s, n) && (o == Max || NullFree(s, n))
    ensures Contains(o, s, x, 0, n) == Success(x in s[..n])
  {
    if n > 0 {
      var has := SubtreeHas(s, x, 0, n);
      if has {
        SubtreeHasSound(s, x, 0, n);
      }
      if x in s[..n] {
        var j :| 0 <= j < n && s[..n][j] == x;
        assert SubtreeHas(s, x, j, n);
        SubtreeHasUpward(s, x, j, n);
      }
      if s[0].Val? && CompareTo(s[0], x) != 0 && Away(o, CompareTo(s[0], x)) {
        ChildPruned(o, s, x, 0, n);
      } else if s[0] != x {
        ChildrenExact(o, s, x, 0, n);
      }
    }
  }

  /** MinContains does not look below a null child, so with nulls in a min-heap it can miss an item:
      [null, null, null, 3] is a min-heap holding 3, yet the search answers false. */
  lemma MinContainsMissesBelowNull()
    ensures IsHeap(Min, [Null, Null, Null, Val(3)], 4)
    ensures Val(3) in [Null, Null, Null, Val(3)]
    ensures Contains(Min, [Null, Null, Null, Val(3)], Val(3), 0, 4) == Success(false)
  {
    var s := [Null, Null, Null, Val(3)];
    assert ContainsChildren(Min, s, Val(3), 0, 4) == Success(false);
  }

  /** MaxHeapify at node 1 of [45, 25, 4, 88, 96, 18, 101, 7], whose children 3 and 4 head
      heaps already, leaves node 1 at least as large as both children. */
  method HeapifyScenario(s: seq<Elem>) returns (items: seq<Elem>)
    requires s == [Val(45), Val(25), Val(4), Val(88), Val(96), Val(18), Val(101), Val(7)]
    ensures |items| == 8 && Le(items[3], items[1]) && Le(items[4], items[1])
  {
    var data := new ElemList(s);
    SampleChildHeaps(s);
    Heapify(Max, data, 1, 8);
    items := data.items;
    SubHeapTop(Max, items, 1, 8);
  }

  /** In the sample, slot 3 heads the heap [88, 7] and slot 4 is a leaf. */
  lemma SampleChildHeaps(s: seq<Elem>)
    requires s == [Val(45), Val(25), Val(4), Val(88), Val(96), Val(18), Val(101), Val(7)]
    ensures SubHeap(Max, s, HeapLeft(1), 8) && SubHeap(Max, s, HeapRight(1), 8)
  {
    assert Up(7) == 3;
  }
}
