/** PriorityQueue<T>: a backing list, a logical size and an order, driving the heap engine.
    The logical size (Count) and the list's length (Size) are kept apart: Dequeue leaves a stale
    slot behind, TrimExcess cuts the list back, and Clear empties the list but keeps Count. */
module PriorityQueues {
  import opened Elements
  import opened HeapOrder
  import Heap

  /** The sentinel Enqueue hands to the heap: MaxInsert receives maxItem, MinInsert minItem. */
  function SentinelFor(o: PriorityOrder, minItem: Elem, maxItem: Elem): (r: Elem)
    ensures forall x :: Le(minItem, x) && Le(x, maxItem) ==> Ordered(o, r, x)
  {
    if o == Max then maxItem else minItem
  }

  class PriorityQueue {
    const order: PriorityOrder
    const data: ElemList
    var heapSize: nat

    /** Count: the logical size. */
    function Count(): nat
      reads this
    {
      heapSize
    }

    /** Size: the physical length of the backing list (the tests read it; the class does not define it). */
    ghost function Size(): nat
      reads this, data
    {
      |data.items|
    }

    /** The state every operation but Enqueue and Clear preserves: the first Count slots exist and
        form an `order`-heap. */
    ghost predicate Healthy()
      reads this, data
    {
      heapSize <= |data.items| && IsHeap(order, data.items, heapSize)
    }

    /** The weaker state Enqueue preserves: the first Count slots exist and slot 0 dominates each. */
    ghost predicate RootDominates()
      reads this, data
    {
      heapSize <= |data.items| && forall j :: 0 <= j < heapSize ==> Ordered(order, data.items[0], data.items[j])
    }

    /** PriorityQueue(order), and PriorityQueue(initialCapacity, order) without its capacity hint. */
    constructor (order: PriorityOrder)
      ensures this.order == order && fresh(data)
      ensures data.items == [] && heapSize == 0 && Healthy()
    {
      this.order := order;
      data := new ElemList([]);
      heapSize := 0;
    }

    /** PriorityQueue(collection, order): copy the collection, set Count to its length, build a heap. */
    constructor FromCollection(items: seq<Elem>, order: PriorityOrder)
      ensures this.order == order && fresh(data)
      ensures heapSize == |items| && data.items == Build(order, items)
      ensures Healthy() && RootDominates() && Count() == Size() && multiset(data.items) == multiset(items)
    {
      this.order := order;
      data := new ElemList(items);
      heapSize := |items|;
      new;
      Heap.BuildHeap(order, data);
      forall j | 0 <= j < heapSize
        ensures Ordered(order, data.items[0], data.items[j])
      {
        HeapRootDominates(order, data.items, heapSize, j);
      }
    }

    /** Clear empties the backing list and leaves Count as it was. */
    method Clear()
      modifies data
      ensures data.items == [] && heapSize == old(heapSize)
    {
      data.items := [];
    }

    /** Contains searches the first Count slots with MaxContains / MinContains. */
    method Contains(item: Elem) returns (r: Result<bool>)
      ensures r == Heap.Contains(order, data.items, item, 0, heapSize)
      ensures r == Success(true) ==> exists j :: 0 <= j < heapSize && j < |data.items| && data.items[j] == item
      ensures Healthy() && (order == Max || Heap.NullFree(data.items, heapSize)) ==>
                r == Success(item in data.items[..heapSize])
    {
      r := Heap.Contains(order, data.items, item, 0, heapSize);
      if Healthy() && (order == Max || Heap.NullFree(data.items, heapSize)) {
        Heap.ContainsExact(order, data.items, item, heapSize);
      }
    }

    /** Dequeue: InvalidOperationException on an empty queue; otherwise Count drops by one (before
        the extraction runs, so also when it throws) and the extracted root is returned. */
    method Dequeue() returns (r: Result<Elem>)
      modifies this, data
      ensures old(heapSize) == 0 ==> r == Failure(InvalidOperation) && heapSize == 0 && data.items == old(data.items)
      ensures old(heapSize) > 0 ==> heapSize == old(heapSize) - 1 && |data.items| == old(|data.items|)
      ensures 0 < old(heapSize) <= old(|data.items|) ==>
                r == Success(old(data.items[0])) && data.items == AfterExtract(order, old(data.items), heapSize)
      ensures old(|data.items|) < old(heapSize) ==> r == Failure(ArgumentOutOfRange) && data.items == old(data.items)
      ensures old(Healthy()) && old(heapSize) > 0 ==>
                && Healthy() && r.Success?
                && (forall j :: 0 <= j < old(heapSize) ==> Ordered(order, r.value, old(data.items[j])))
                && multiset(data.items[..heapSize]) == multiset(old(data.items)[..heapSize + 1]) - multiset{r.value}
    {
      if heapSize == 0 {
        return Failure(InvalidOperation);
      }
      var size := heapSize;
      heapSize := heapSize - 1;
      r := Heap.Extract(order, data, size);
    }

    /** Enqueue: Count rises by one (the post-increment runs before the heap call, so also when it
        throws) and MaxInsert / MinInsert run with the old Count and SentinelFor's sentinel. */
    method Enqueue(item: Elem, minItem: Elem, maxItem: Elem) returns (thrown: Option<Exn>)
      modifies this, data
      ensures heapSize == old(heapSize) + 1
      ensures Effect(data.items, thrown) ==
                InsertEffect(order, old(data.items), item, SentinelFor(order, minItem, maxItem), old(heapSize))
      ensures old(heapSize) == old(|data.items|) ==>
                && Count() == Size()
                && (thrown == None <==> item.Val? && Ordered(order, SentinelFor(order, minItem, maxItem), item))
                && (thrown == None ==> multiset(data.items) == multiset(old(data.items)) + multiset{item})
      ensures old(RootDominates()) && old(heapSize) == old(|data.items|) && thrown == None ==>
                && RootDominates()
                && (old(heapSize) == 0 ==> data.items == [item])
                && (old(heapSize) > 0 ==> data.items[0] == Extreme(order, old(data.items[0]), item))
    {
      var size := heapSize;
      ghost var s := data.items;
      heapSize := heapSize + 1;
      var sentinel := SentinelFor(order, minItem, maxItem);
      thrown := Heap.Insert(order, data, item, sentinel, size);
      if old(RootDominates()) && size == |s| && thrown == None {
        InsertKeepsRoot(order, s, item, sentinel);
      }
    }

    /** Peek returns slot 0 whatever Count is; only an empty list throws. */
    method Peek() returns (r: Result<Elem>)
      ensures |data.items| == 0 ==> r == Failure(ArgumentOutOfRange)
      ensures |data.items| > 0 ==> r == Success(data.items[0])
      ensures Healthy() && heapSize > 0 ==> forall j :: 0 <= j < heapSize ==> Ordered(order, r.value, data.items[j])
    {
      if |data.items| == 0 {
        return Failure(ArgumentOutOfRange);
      }
      r := Success(data.items[0]);
      if Healthy() && heapSize > 0 {
        forall j | 0 <= j < heapSize
          ensures Ordered(order, r.value, data.items[j])
        {
          HeapRootDominates(order, data.items, heapSize, j);
        }
      }
    }

    /** TrimExcess removes trailing slots one at a time until the length is at most Count. */
    method TrimExcess()
      modifies data
      ensures heapSize <= old(|data.items|) ==> data.items == old(data.items)[..heapSize]
      ensures old(|data.items|) < heapSize ==> data.items == old(data.items)
      ensures old(Healthy()) ==> Healthy() && Count() == Size()
    {
      while heapSize < |data.items|
        invariant |data.items| <= old(|data.items|)
        invariant data.items == old(data.items)[..|data.items|]
        invariant heapSize <= old(|data.items|) ==> heapSize <= |data.items|
        invariant old(|data.items|) < heapSize ==> data.items == old(data.items)
        decreases |data.items|
      {
        data.items := data.items[..|data.items| - 1];
      }
      if old(Healthy()) {
        assert forall j :: 0 <= j < heapSize ==> data.items[j] == old(data.items)[j];
      }
    }
  }

  // ---------------------------------------------------------------- the queue's scenarios

  /** The root of a heap is the one element of [0, n) that dominates all of [0, n). */
  lemma RootIsExtreme(o: PriorityOrder, b: seq<Elem>, n: nat, x: Elem)
    requires n <= |b| && IsHeap(o, b, n)
    requires x in multiset(b[..n]) && forall y | y in multiset(b[..n]) :: Ordered(o, x, y)
    ensures b[0] == x
  {
    assert b[..n][0] == b[0];
    assert b[0] in multiset(b[..n]);
    var i :| 0 <= i < n && b[..n][i] == x;
    HeapRootDominates(o, b, n, i);
    OrderFacts(o, b[0], x, x);
  }

  /** Taking one copy of s[k] out of s leaves the elements at the other indices. */
  lemma WithoutIndex(s: seq<Elem>, k: nat, y: Elem)
    requires k < |s| && y in multiset(s) - multiset{s[k]}
    ensures exists j :: 0 <= j < |s| && j != k && s[j] == y
  {
    assert s == s[..k] + [s[k]] + s[k + 1..];
    assert multiset(s) - multiset{s[k]} == multiset(s[..k] + s[k + 1..]);
    assert y in s[..k] + s[k + 1..];
    var i :| 0 <= i < |s[..k] + s[k + 1..]| && (s[..k] + s[k + 1..])[i] == y;
    if i < k {
      assert s[i] == y;
    } else {
      assert s[i + 1] == y;
    }
  }

  /** The element at another index survives taking one copy of s[k] out. */
  lemma OtherIndexRemains(s: seq<Elem>, k: nat, k2: nat)
    requires k < |s| && k2 < |s| && k != k2
    ensures s[k2] in multiset(s) - multiset{s[k]}
  {
    var rest := s[..k] + s[k + 1..];
    assert s == s[..k] + [s[k]] + s[k + 1..];
    assert multiset(s) - multiset{s[k]} == multiset(rest);
    if k2 < k {
      assert rest[k2] == s[k2];
    } else {
      assert rest[k2 - 1] == s[k2];
    }
  }

  /** A heap built over a collection holds the collection's extreme at the root. */
  lemma TopOfBuild(o: PriorityOrder, s: seq<Elem>, k: nat)
    requires k < |s|
    requires forall j | 0 <= j < |s| :: Ordered(o, s[k], s[j])
    ensures Build(o, s)[0] == s[k]
  {
    var b := Build(o, s);
    BuildIsHeap(o, s);
    assert b[..|s|] == b;
    forall y | y in multiset(b)
      ensures Ordered(o, s[k], y)
    {
      var j :| 0 <= j < |s| && s[j] == y;
    }
    assert s[k] in multiset(b);
    RootIsExtreme(o, b, |s|, s[k]);
  }

  /** A heap over the other slots of s has at its root their extreme. */
  lemma RootOfRest(o: PriorityOrder, s: seq<Elem>, r: seq<Elem>, m: nat, k: nat, k2: nat)
    requires k < |s| && k2 < |s| && k != k2 && m <= |r| && IsHeap(o, r, m)
    requires multiset(r[..m]) == multiset(s) - multiset{s[k]}
    requires forall j | 0 <= j < |s| && j != k :: Ordered(o, s[k2], s[j])
    ensures r[0] == s[k2]
  {
    forall y | y in multiset(r[..m])
      ensures Ordered(o, s[k2], y)
    {
      WithoutIndex(s, k, y);
    }
    OtherIndexRemains(s, k, k2);
    RootIsExtreme(o, r, m, s[k2]);
  }

  /** After one extraction from a heap whose root is s[k], the root is the extreme of the
      other slots of s. */
  lemma SecondAfterExtract(o: PriorityOrder, s: seq<Elem>, b: seq<Elem>, k: nat, k2: nat)
    requires |s| >= 2 && k < |s| && k2 < |s| && k != k2
    requires |b| == |s| && IsHeap(o, b, |b|) && multiset(b) == multiset(s) && b[0] == s[k]
    requires forall j | 0 <= j < |s| && j != k :: Ordered(o, s[k2], s[j])
    ensures AfterExtract(o, b, |s| - 1)[0] == s[k2]
  {
    ExtractFromBuilt(o, s, b, k);
    RootOfRest(o, s, AfterExtract(o, b, |b| - 1), |b| - 1, k, k2);
  }

  /** Extracting from a heap that permutes s, with s[k] at its root, leaves a heap of the other
      slots of s. */
  lemma ExtractFromBuilt(o: PriorityOrder, s: seq<Elem>, b: seq<Elem>, k: nat)
    requires 0 < |s| && k < |s|
    requires |b| == |s| && IsHeap(o, b, |b|) && multiset(b) == multiset(s) && b[0] == s[k]
    ensures var r := AfterExtract(o, b, |b| - 1);
      |r| == |b| && IsHeap(o, r, |b| - 1) && multiset(r[..|b| - 1]) == multiset(s) - multiset{s[k]}
  {
    AfterExtractWhole(o, b);
  }

  /** A heap built over a collection holds the collection's extreme at the root, and after one
      extraction the extreme of the other slots of the collection. */
  lemma TopTwo(o: PriorityOrder, s: seq<Elem>, k: nat, k2: nat)
    requires |s| >= 2 && k < |s| && k2 < |s| && k != k2
    requires forall j | 0 <= j < |s| :: Ordered(o, s[k], s[j])
    requires forall j | 0 <= j < |s| && j != k :: Ordered(o, s[k2], s[j])
    ensures Build(o, s)[0] == s[k]
    ensures AfterExtract(o, Build(o, s), |s| - 1)[0] == s[k2]
  {
    TopOfBuild(o, s, k);
    BuildIsHeap(o, s);
    SecondAfterExtract(o, s, Build(o, s), k, k2);
  }

  /** The collection the queue's tests start from. */
  function Sample(): seq<Elem> {
    [Val(45), Val(25), Val(4), Val(88), Val(96), Val(18), Val(101), Val(7)]
  }

  const MinInt32: Elem := Val(-0x8000_0000)
  const MaxInt32: Elem := Val(0x7fff_ffff)

  /** The sample lies between 4 (slot 2) and 101 (slot 6); the other slots lie between 7 (slot 7)
      and 96 (slot 4). */
  lemma SampleBounds(s: seq<Elem>)
    requires s == [Val(45), Val(25), Val(4), Val(88), Val(96), Val(18), Val(101), Val(7)]
    ensures s[6] == Val(101) && s[4] == Val(96) && s[2] == Val(4) && s[7] == Val(7)
    ensures forall j | 0 <= j < |s| :: Le(Val(4), s[j]) && Le(s[j], Val(101))
    ensures forall j | 0 <= j < |s| && j != 6 :: Le(s[j], Val(96))
    ensures forall j | 0 <= j < |s| && j != 2 :: Le(Val(7), s[j])
  {
  }

  /** Built over the sample, a max-heap yields 101 and then 96. */
  lemma SampleMaxTopTwo()
    ensures Build(Max, Sample())[0] == Val(101)
    ensures AfterExtract(Max, Build(Max, Sample()), 7)[0] == Val(96)
  {
    SampleBounds(Sample());
    TopTwo(Max, Sample(), 6, 4);
  }

  /** Built over the sample, a min-heap yields 4 and then 7. */
  lemma SampleMinTopTwo()
    ensures Build(Min, Sample())[0] == Val(4)
    ensures AfterExtract(Min, Build(Min, Sample()), 7)[0] == Val(7)
  {
    SampleBounds(Sample());
    TopTwo(Min, Sample(), 2, 7);
  }

  /** The Peek and Dequeue tests: over the sample, Peek and the first Dequeue give the extreme,
      the second Dequeue the runner-up, and Count falls from 8 to 6. */
  method DequeueScenario(o: PriorityOrder) returns (peeked: Result<Elem>, first: Result<Elem>, second: Result<Elem>, count: nat)
    ensures o == Max ==> peeked == Success(Val(101)) && first == Success(Val(101)) && second == Success(Val(96))
    ensures o == Min ==> peeked == Success(Val(4)) && first == Success(Val(4)) && second == Success(Val(7))
    ensures count == 6
  {
    var q := new PriorityQueue.FromCollection(Sample(), o);
    peeked := q.Peek();
    first := q.Dequeue();
    second := q.Dequeue();
    count := q.Count();
    SampleMaxTopTwo();
    SampleMinTopTwo();
  }

  /** The Enqueue tests: a 32-bit item enqueued on the sample is accepted, Count becomes 9, and
      the next Dequeue gives the more extreme of the item and the old root (232 on a max queue
      fed 232, 101 on one fed 2, 2 on a min queue fed 2, 4 on one fed 2322). */
  method EnqueueScenario(o: PriorityOrder, item: Elem) returns (thrown: Option<Exn>, enqueued: nat, first: Result<Elem>, count: nat)
    requires item.Val? && Le(MinInt32, item) && Le(item, MaxInt32)
    ensures thrown == None && enqueued == 9 && count == 8
    ensures first == Success(Extreme(o, if o == Max then Val(101) else Val(4), item))
  {
    var q := new PriorityQueue.FromCollection(Sample(), o);
    SampleMaxTopTwo();
    SampleMinTopTwo();
    ghost var top := if o == Max then Val(101) else Val(4);
    assert q.data.items[0] == top && |q.data.items| == 8;
    assert Ordered(o, SentinelFor(o, MinInt32, MaxInt32), item);
    thrown := q.Enqueue(item, MinInt32, MaxInt32);
    assert thrown == None && q.data.items[0] == Extreme(o, top, item);
    enqueued := q.Count();
    first := q.Dequeue();
    count := q.Count();
  }

  /** Clear empties the list but not Count, so Count exceeds Size afterwards: Peek then throws
      and Dequeue, past its empty-queue test, fails inside the extraction and still lowers Count. */
  method ClearScenario() returns (count: nat, size: nat, peeked: Result<Elem>, dequeued: Result<Elem>, countAfter: nat)
    ensures count == 8 && size == 0 && count > size
    ensures peeked == Failure(ArgumentOutOfRange) && dequeued == Failure(ArgumentOutOfRange)
    ensures countAfter == 7
  {
    var q := new PriorityQueue.FromCollection(Sample(), Max);
    q.Clear();
    count := q.Count();
    size := |q.data.items|;
    peeked := q.Peek();
    dequeued := q.Dequeue();
    countAfter := q.Count();
  }

  /** Over a heap built from eight values of at most 101 (the sample's), the slot an extraction
      leaves stale holds one of them; so a max queue's Enqueue(102) fails its guard against that
      slot and still appends the sentinel. */
  lemma StaleSlotRejects(s: seq<Elem>)
    requires |s| == 8 && forall j | 0 <= j < |s| :: Le(s[j], Val(101))
    ensures var e := InsertEffect(Max, AfterExtract(Max, Build(Max, s), 7), Val(102), MaxInt32, 7);
      e.thrown == Some(Argument) && |e.items| == 9
  {
    var t := AfterExtract(Max, Build(Max, s), 7);
    StaleSlotFromInput(Max, s, 7);
    assert !Ordered(Max, t[7], Val(102));
    InsertChecksStaleSlot(Max, t, Val(102), MaxInt32, 7);
  }

  /** After one extraction from a heap built over s, the slot left behind holds an element of s. */
  lemma StaleSlotFromInput(o: PriorityOrder, s: seq<Elem>, m: nat)
    requires 0 < m < |s|
    ensures exists j :: 0 <= j < |s| && AfterExtract(o, Build(o, s), m)[m] == s[j]
  {
    var b := Build(o, s);
    AfterExtractRemovesRoot(o, b, m);
    assert AfterExtract(o, b, m)[m] == AfterExtract(o, b, m)[m..][0] == b[m];
    assert b[m] in multiset(s);
  }

  /** After a Dequeue the slot at Count is stale, and Enqueue checks the item against it instead
      of the sentinel: 102, below int.MaxValue, is rejected by the max queue, yet the list grows
      to 9 slots while Count returns to 8. */
  method StaleSlotScenario() returns (thrown: Option<Exn>, count: nat, length: nat)
    ensures thrown == Some(Argument) && count == 8 && length == 9
  {
    var q := new PriorityQueue.FromCollection(Sample(), Max);
    SampleBounds(Sample());
    StaleSlotRejects(Sample());
    var d := q.Dequeue();
    thrown := q.Enqueue(Val(102), MinInt32, MaxInt32);
    count := q.Count();
    length := |q.data.items|;
  }
}
