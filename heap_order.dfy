/** The heap engine's pure core: index arithmetic, the heap-order predicates, and the
    functions that say what each in-place routine of Heap.cs leaves in the list.
    The routines themselves are the methods of module Heap. */
module HeapOrder {
  import opened Elements

  /** HeapParent: `i >> 1`. It is NOT the inverse of HeapLeft/HeapRight (that would be (i-1)/2);
      only MaxIncrease/MinDecrease use it. */
  function HeapParent(i: nat): (p: nat)
    ensures 2 * p <= i <= 2 * p + 1
  {
    i / 2
  }

  /** HeapLeft/HeapRight: the two children, which Up maps back to their node. */
  function HeapLeft(i: nat): (l: nat)
    ensures l > i && Up(l) == i
  {
    2 * i + 1
  }

  function HeapRight(i: nat): (r: nat)
    ensures r == HeapLeft(i) + 1 && Up(r) == i
  {
    2 * i + 2
  }

  /** The node under which HeapLeft/HeapRight place child `j`. */
  function Up(j: nat): nat
    requires j > 0
  {
    (j - 1) / 2
  }

  /** Every parent/child pair inside [0, n) whose parent index is at least k is `o`-ordered. */
  ghost predicate HeapFrom(o: PriorityOrder, s: seq<Elem>, k: int, n: int)
    requires n <= |s|
  {
    forall j :: 0 < j < n && k <= Up(j) ==> Ordered(o, s[Up(j)], s[j])
  }

  /** s[0..n) is an `o`-heap with children at 2i+1 and 2i+2. */
  ghost predicate IsHeap(o: PriorityOrder, s: seq<Elem>, n: int)
    requires n <= |s|
  {
    HeapFrom(o, s, 0, n)
  }

  /** The sift-down precondition: ordered from k on, except below node i; and when i is not the
      node the sift started from, i's parent already dominates i's children. */
  ghost predicate HeapExcept(o: PriorityOrder, s: seq<Elem>, k: int, i: nat, n: int)
    requires n <= |s|
  {
    && (forall j :: 0 < j < n && k <= Up(j) && Up(j) != i ==> Ordered(o, s[Up(j)], s[j]))
    && (0 < i && k < i ==> forall j :: 0 < j < n && Up(j) == i ==> Ordered(o, s[Up(i)], s[j]))
  }

  /** Every parent/child pair inside [0, n) whose parent lies in the subtree rooted at r is
      `o`-ordered: the subtree at r is an `o`-heap. */
  ghost predicate SubHeap(o: PriorityOrder, s: seq<Elem>, r: nat, n: int)
    requires n <= |s|
  {
    forall j :: 0 < j < n && InSubtree(r, Up(j)) ==> Ordered(o, s[Up(j)], s[j])
  }

  /** The subtree sift-down precondition: the subtree at r is ordered except below node i; and
      when i is below r, i's parent already dominates i's children. */
  ghost predicate SubHeapExcept(o: PriorityOrder, s: seq<Elem>, r: nat, i: nat, n: int)
    requires n <= |s|
  {
    && (forall j :: 0 < j < n && InSubtree(r, Up(j)) && Up(j) != i ==> Ordered(o, s[Up(j)], s[j]))
    && (r < i ==> forall j :: 0 < j < n && Up(j) == i ==> Ordered(o, s[Up(i)], s[j]))
  }

  /** `j` lies in the subtree rooted at `i` (children at 2i+1, 2i+2). */
  predicate InSubtree(i: nat, j: nat)
    decreases j
  {
    j == i || (j > i && InSubtree(i, Up(j)))
  }

  /** `j` is on the chain i, i>>1, i>>2, ..., 0 that MaxIncrease/MinDecrease walk. */
  predicate OnChain(i: nat, j: nat)
    decreases i
  {
    j == i || (i > 0 && OnChain(HeapParent(i), j))
  }

  /** MaxHeapify/MinHeapify's choice at node i: the left child when it is in range and the strict
      test picks it over the node, then the right child when it is in range and picked over that. */
  function Pick(o: PriorityOrder, s: seq<Elem>, i: nat, n: int): (m: nat)
    requires n <= |s|
    ensures m == i || (m > 0 && Up(m) == i && m < n)
  {
    var m1 := if HeapLeft(i) < n && Picks(o, s[HeapLeft(i)], s[i]) then HeapLeft(i) else i;
    if HeapRight(i) < n && Picks(o, s[HeapRight(i)], s[m1]) then HeapRight(i) else m1
  }

  /** What MaxHeapify (o == Max) / MinHeapify (o == Min) leave in the list: swap the node with the
      child Pick chooses, and continue from the child's slot. */
  function SiftDown(o: PriorityOrder, s: seq<Elem>, i: nat, n: int): (r: seq<Elem>)
    requires n <= |s|
    ensures |r| == |s| && multiset(r) == multiset(s)
    ensures forall j :: 0 <= j < |s| && n <= j ==> r[j] == s[j]
    decreases n - i
  {
    var m := Pick(o, s, i, n);
    if m == i then s else SiftDown(o, Swap(s, i, m), m, n)
  }

  /** What BuildMaxHeap/BuildMinHeap's loop leaves once it has sifted down `index`, `index-1`, ..., 0. */
  function BuildFrom(o: PriorityOrder, s: seq<Elem>, index: int): (r: seq<Elem>)
    ensures |r| == |s| && multiset(r) == multiset(s)
    decreases index + 1
  {
    if index < 0 then s else BuildFrom(o, SiftDown(o, s, index, |s|), index - 1)
  }

  /** BuildMaxHeap/BuildMinHeap: sift down from the last internal node (n/2 - 1) to the root. */
  function Build(o: PriorityOrder, s: seq<Elem>): (r: seq<Elem>)
    ensures |r| == |s| && multiset(r) == multiset(s)
  {
    BuildFrom(o, s, |s| / 2 - 1)
  }

  /** ExtractMax/ExtractMin's list update for the decremented size m: the slot m overwrites the
      root, which is then sifted down inside [0, m) when m > 0. */
  function AfterExtract(o: PriorityOrder, s: seq<Elem>, m: nat): (r: seq<Elem>)
    requires m < |s|
    ensures |r| == |s| && multiset(r) == multiset(s[0 := s[m]])
  {
    var t := s[0 := s[m]];
    if m > 0 then SiftDown(o, t, 0, m) else t
  }

  /** The climb of MaxIncrease/MinDecrease: swap with the slot `i >> 1` while Rises holds. */
  function SiftUp(o: PriorityOrder, s: seq<Elem>, i: nat): (r: seq<Elem>)
    requires i < |s|
    ensures |r| == |s| && multiset(r) == multiset(s)
    decreases i
  {
    if i > 0 && Rises(o, s[i], s[HeapParent(i)]) then SiftUp(o, Swap(s, i, HeapParent(i)), HeapParent(i))
    else s
  }

  /** MaxIncrease (o == Max) / MinDecrease (o == Min): ArgumentException for a null item or one that
      is MORE extreme than the current key (the guard is the reverse of its message); a bad index
      throws when the slot is read; otherwise the slot is overwritten and the item climbs. */
  function IncreaseKeyEffect(o: PriorityOrder, s: seq<Elem>, index: int, item: Elem): (e: Effect)
    ensures e.thrown != None ==> e.items == s
    ensures e.thrown == None ==>
              && item.Val? && 0 <= index < |s| && |e.items| == |s|
              && multiset(e.items) == multiset(s[index := item])
  {
    if item.Null? then Effect(s, Some(Argument))
    else if index < 0 || index >= |s| then Effect(s, Some(ArgumentOutOfRange))
    else if !Ordered(o, s[index], item) then Effect(s, Some(Argument))
    else Effect(SiftUp(o, s[index := item], index), None)
  }

  /** MaxInsert/MinInsert: the size is incremented first, the sentinel is written at the incremented
      size (or appended when that is not below Count), and the key change runs one slot lower. */
  function InsertEffect(o: PriorityOrder, s: seq<Elem>, item: Elem, sentinel: Elem, heapSize: int): (e: Effect)
    ensures heapSize + 1 < 0 ==> e.items == s
    ensures heapSize + 1 >= 0 ==> |e.items| == (if heapSize + 1 < |s| then |s| else |s| + 1)
    ensures e.thrown == None ==> 0 <= heapSize <= |s|
  {
    var h := heapSize + 1;
    if h < 0 then Effect(s, Some(ArgumentOutOfRange))
    else
      var t := if h < |s| then s[h := sentinel] else s + [sentinel];
      IncreaseKeyEffect(o, t, h - 1, item)
  }

  // ---------------------------------------------------------------- sift-down

  /** A child sits inside its parent's subtree, and so does everything below it. */
  lemma {:induction false} SubtreeOfChild(i: nat, m: nat, j: nat)
    requires m > 0 && Up(m) == i && InSubtree(m, j)
    ensures InSubtree(i, j)
    decreases j
  {
    if j != m {
      SubtreeOfChild(i, m, Up(j));
    }
  }

  /** The chosen slot dominates the node and both of its in-range children, and a chosen child
      is strictly more extreme than the node. */
  lemma PickDominates(o: PriorityOrder, s: seq<Elem>, i: nat, n: int)
    requires n <= |s| && i < n
    ensures var m := Pick(o, s, i, n);
      && Ordered(o, s[m], s[i])
      && (HeapLeft(i) < n ==> Ordered(o, s[m], s[HeapLeft(i)]))
      && (HeapRight(i) < n ==> Ordered(o, s[m], s[HeapRight(i)]))
      && (m != i ==> Picks(o, s[m], s[i]))
  {
    var l, rt := HeapLeft(i), HeapRight(i);
    var m1 := if l < n && Picks(o, s[l], s[i]) then l else i;
    var m := Pick(o, s, i, n);
    OrderFacts(o, s[i], s[i], s[i]);
    if l < n {
      OrderFacts(o, s[l], s[i], s[i]);
      OrderFacts(o, s[i], s[l], s[l]);
    }
    if rt < n {
      OrderFacts(o, s[rt], s[m1], s[i]);
      OrderFacts(o, s[rt], s[m1], s[l]);
      OrderFacts(o, s[m1], s[rt], s[rt]);
      OrderFacts(o, s[m1], s[l], s[i]);
      OrderFacts(o, s[m1], s[i], s[l]);
    }
  }

  /** One swap of Heapify moves the exception from node i down to the chosen child. */
  lemma SwapStep(o: PriorityOrder, s: seq<Elem>, k: int, i: nat, n: int)
    requires n <= |s| && k <= i && i < n && HeapExcept(o, s, k, i, n)
    requires Pick(o, s, i, n) != i
    ensures var m := Pick(o, s, i, n);
      k <= m && HeapExcept(o, Swap(s, i, m), k, m, n)
  {
    var m := Pick(o, s, i, n);
    var t := Swap(s, i, m);
    PickDominates(o, s, i, n);
    forall j | 0 < j < n && k <= Up(j) && Up(j) != m
      ensures Ordered(o, t[Up(j)], t[j])
    {
      if Up(j) == i {
        assert j == HeapLeft(i) || j == HeapRight(i);
      }
    }
  }

  /** Heapify restores the heap order: if every pair from k on is ordered except below i (and i's
      parent dominates i's children), then afterwards every pair from k on is ordered. */
  lemma {:induction false} SiftDownRestores(o: PriorityOrder, s: seq<Elem>, k: int, i: nat, n: int)
    requires n <= |s| && k <= i
    requires HeapExcept(o, s, k, i, n)
    ensures HeapFrom(o, SiftDown(o, s, i, n), k, n)
    decreases n - i
  {
    var m := Pick(o, s, i, n);
    if m == i {
      forall j | 0 < j < n && k <= Up(j)
        ensures Ordered(o, s[Up(j)], s[j])
      {
        if Up(j) == i {
          assert j == HeapLeft(i) || j == HeapRight(i);
          PickDominates(o, s, i, n);
        }
      }
    } else {
      SwapStep(o, s, k, i, n);
      SiftDownRestores(o, Swap(s, i, m), k, m, n);
    }
  }

  /** A node below i other than i lies in the subtree of one of i's children. */
  lemma {:induction false} InChildSubtree(i: nat, x: nat)
    requires InSubtree(i, x) && x != i
    ensures InSubtree(HeapLeft(i), x) || InSubtree(HeapRight(i), x)
    decreases x
  {
    if Up(x) != i {
      InChildSubtree(i, Up(x));
    }
  }

  /** A node below a child of i lies below i. */
  lemma SubtreeOfNode(r: nat, i: nat, m: nat)
    requires InSubtree(r, i) && m > 0 && Up(m) == i
    ensures InSubtree(r, m)
  {
    assert m > i >= r;
  }

  /** When the subtrees of both children are heaps, the subtree at i is one except below i. */
  lemma ChildrenSubHeaps(o: PriorityOrder, s: seq<Elem>, i: nat, n: int)
    requires n <= |s| && SubHeap(o, s, HeapLeft(i), n) && SubHeap(o, s, HeapRight(i), n)
    ensures SubHeapExcept(o, s, i, i, n)
  {
    forall j | 0 < j < n && InSubtree(i, Up(j)) && Up(j) != i
      ensures Ordered(o, s[Up(j)], s[j])
    {
      InChildSubtree(i, Up(j));
    }
  }

  /** One swap of Heapify moves the exception of the subtree at r from node i down to the chosen
      child. */
  lemma SubSwapStep(o: PriorityOrder, s: seq<Elem>, r: nat, i: nat, n: int)
    requires n <= |s| && i < n && InSubtree(r, i) && SubHeapExcept(o, s, r, i, n)
    requires Pick(o, s, i, n) != i
    ensures var m := Pick(o, s, i, n);
      InSubtree(r, m) && SubHeapExcept(o, Swap(s, i, m), r, m, n)
  {
    var m := Pick(o, s, i, n);
    var t := Swap(s, i, m);
    PickDominates(o, s, i, n);
    SubtreeOfNode(r, i, m);
    forall j | 0 < j < n && InSubtree(r, Up(j)) && Up(j) != m
      ensures Ordered(o, t[Up(j)], t[j])
    {
      if Up(j) == i {
        assert j == HeapLeft(i) || j == HeapRight(i);
      } else if j == i {
        assert r < i;
      } else {
        assert j != m;
      }
    }
    forall j | 0 < j < n && Up(j) == m
      ensures Ordered(o, t[Up(m)], t[j])
    {
      SubtreeOfNode(r, m, j);
      assert InSubtree(r, Up(j));
    }
  }

  /** Heapify restores a subtree: if the subtree at r is ordered except below i (and i's parent
      dominates i's children), then afterwards the whole subtree at r is ordered. */
  lemma {:induction false} SiftDownRestoresSubtree(o: PriorityOrder, s: seq<Elem>, r: nat, i: nat, n: int)
    requires n <= |s| && InSubtree(r, i)
    requires SubHeapExcept(o, s, r, i, n)
    ensures SubHeap(o, SiftDown(o, s, i, n), r, n)
    decreases n - i
  {
    var m := Pick(o, s, i, n);
    if m == i {
      forall j | 0 < j < n && InSubtree(r, Up(j))
        ensures Ordered(o, s[Up(j)], s[j])
      {
        if Up(j) == i {
          assert j == HeapLeft(i) || j == HeapRight(i);
          PickDominates(o, s, i, n);
        }
      }
    } else {
      SubSwapStep(o, s, r, i, n);
      SiftDownRestoresSubtree(o, Swap(s, i, m), r, m, n);
    }
  }

  /** MaxHeapify/MinHeapify's promise: when the subtrees at 2i+1 and 2i+2 are heaps, the subtree at
      i is a heap afterwards. */
  lemma SiftDownHeapifies(o: PriorityOrder, s: seq<Elem>, i: nat, n: int)
    requires n <= |s| && SubHeap(o, s, HeapLeft(i), n) && SubHeap(o, s, HeapRight(i), n)
    ensures SubHeap(o, SiftDown(o, s, i, n), i, n)
  {
    ChildrenSubHeaps(o, s, i, n);
    SiftDownRestoresSubtree(o, s, i, i, n);
  }

  /** What MaxHeapify/MinHeapify promise about the list they leave: only the subtree of the node
      moves, the subtree becomes a heap when its two child subtrees were, and the order from the
      node on is restored when it held from the next node on. */
  lemma SiftDownPromises(o: PriorityOrder, s: seq<Elem>, i: nat, n: int)
    requires n <= |s|
    ensures forall j :: 0 <= j < |s| && (n <= j || !InSubtree(i, j)) ==> SiftDown(o, s, i, n)[j] == s[j]
    ensures (SubHeap(o, s, HeapLeft(i), n) && SubHeap(o, s, HeapRight(i), n)) ==> SubHeap(o, SiftDown(o, s, i, n), i, n)
    ensures HeapFrom(o, s, i + 1, n) ==> HeapFrom(o, SiftDown(o, s, i, n), i, n)
  {
    SiftDownLocal(o, s, i, n);
    if SubHeap(o, s, HeapLeft(i), n) && SubHeap(o, s, HeapRight(i), n) {
      SiftDownHeapifies(o, s, i, n);
    }
    if HeapFrom(o, s, i + 1, n) {
      SiftDownRestores(o, s, i, i, n);
    }
  }

  /** The head of a subtree that is a heap dominates its children. */
  lemma SubHeapTop(o: PriorityOrder, s: seq<Elem>, i: nat, n: int)
    requires n <= |s| && SubHeap(o, s, i, n)
    ensures HeapLeft(i) < n ==> Ordered(o, s[i], s[HeapLeft(i)])
    ensures HeapRight(i) < n ==> Ordered(o, s[i], s[HeapRight(i)])
  {
    assert InSubtree(i, Up(HeapLeft(i))) && InSubtree(i, Up(HeapRight(i)));
  }

  /** Heapify changes nothing on a subtree that is already a heap: the child tests are strict, and
      the one swap they allow (two nulls, in MinHeapify) exchanges equal values. */
  lemma {:induction false} SiftDownNoop(o: PriorityOrder, s: seq<Elem>, i: nat, n: int)
    requires n <= |s| && SubHeap(o, s, i, n)
    ensures SiftDown(o, s, i, n) == s
    decreases n - i
  {
    var m := Pick(o, s, i, n);
    if m != i {
      PickDominates(o, s, i, n);
      OrderFacts(o, s[m], s[i], s[i]);
      assert s[m] == s[i];
      assert Swap(s, i, m) == s;
      forall j | 0 < j < n && InSubtree(m, Up(j))
        ensures Ordered(o, s[Up(j)], s[j])
      {
        SubtreeOfChild(i, m, Up(j));
      }
      SiftDownNoop(o, s, m, n);
    }
  }

  /** Heapify only moves values inside the subtree of the node it starts from. */
  lemma {:induction false} SiftDownLocal(o: PriorityOrder, s: seq<Elem>, i: nat, n: int)
    requires n <= |s|
    ensures forall j :: 0 <= j < |s| && !InSubtree(i, j) ==> SiftDown(o, s, i, n)[j] == s[j]
    decreases n - i
  {
    var m := Pick(o, s, i, n);
    if m != i {
      var t := Swap(s, i, m);
      SiftDownLocal(o, t, m, n);
      forall j | 0 <= j < |s| && !InSubtree(i, j)
        ensures SiftDown(o, s, i, n)[j] == s[j]
      {
        assert InSubtree(i, m);
        if InSubtree(m, j) { SubtreeOfChild(i, m, j); }
      }
    }
  }

  // ---------------------------------------------------------------- build

  lemma {:induction false} BuildFromHeap(o: PriorityOrder, s: seq<Elem>, index: int)
    requires HeapFrom(o, s, index + 1, |s|)
    ensures IsHeap(o, BuildFrom(o, s, index), |s|)
    decreases index + 1
  {
    if index >= 0 {
      SiftDownExtends(o, s, index);
      BuildFromHeap(o, SiftDown(o, s, index, |s|), index - 1);
    }
  }

  /** One round of the build loop extends the heap order from index + 1 down to index. */
  lemma SiftDownExtends(o: PriorityOrder, s: seq<Elem>, index: nat)
    requires HeapFrom(o, s, index + 1, |s|)
    ensures HeapFrom(o, SiftDown(o, s, index, |s|), index, |s|)
  {
    assert HeapExcept(o, s, index, index, |s|);
    SiftDownRestores(o, s, index, index, |s|);
  }

  /** BuildMaxHeap/BuildMinHeap leave an `o`-heap over the whole list, holding the same multiset. */
  lemma BuildIsHeap(o: PriorityOrder, s: seq<Elem>)
    ensures IsHeap(o, Build(o, s), |s|)
    ensures |Build(o, s)| == |s| && multiset(Build(o, s)) == multiset(s)
  {
    LeavesAreHeap(o, s);
    BuildFromHeap(o, s, |s| / 2 - 1);
  }

  /** No parent lies at or past n/2, so the second half of the list is a heap on its own. */
  lemma LeavesAreHeap(o: PriorityOrder, s: seq<Elem>)
    ensures HeapFrom(o, s, |s| / 2, |s|)
  {
    forall j | 0 < j < |s|
      ensures Up(j) < |s| / 2
    {
    }
  }

  lemma {:induction false} BuildFromNoop(o: PriorityOrder, s: seq<Elem>, index: int)
    requires IsHeap(o, s, |s|)
    ensures BuildFrom(o, s, index) == s
    decreases index + 1
  {
    if index >= 0 {
      SiftDownNoop(o, s, index, |s|);
      BuildFromNoop(o, s, index - 1);
    }
  }

  /** Building a heap from a list that already is one changes nothing. */
  lemma BuildNoop(o: PriorityOrder, s: seq<Elem>)
    requires IsHeap(o, s, |s|)
    ensures Build(o, s) == s
  {
    BuildFromNoop(o, s, |s| / 2 - 1);
  }

  // ---------------------------------------------------------------- extract

  /** The root of a heap is its extreme element: it dominates every slot in [0, n). */
  lemma {:induction false} HeapRootDominates(o: PriorityOrder, s: seq<Elem>, n: int, j: nat)
    requires n <= |s| && IsHeap(o, s, n) && j < n
    ensures Ordered(o, s[0], s[j])
    decreases j
  {
    if j == 0 {
      OrderFacts(o, s[0], s[0], s[0]);
    } else {
      HeapRootDominates(o, s, n, Up(j));
      OrderFacts(o, s[0], s[Up(j)], s[j]);
    }
  }

  lemma PrefixMultiset(r: seq<Elem>, t: seq<Elem>, m: nat)
    requires |r| == |t| && m <= |t| && multiset(r) == multiset(t)
    requires forall j :: m <= j < |t| ==> r[j] == t[j]
    ensures multiset(r[..m]) == multiset(t[..m])
  {
    assert r == r[..m] + r[m..];
    assert t == t[..m] + t[m..];
    assert r[m..] == t[m..];
    var tail := multiset(t[m..]);
    calc {
      multiset(r[..m]);
      multiset(r[..m]) + tail - tail;
      multiset(r) - tail;
      multiset(t) - tail;
      multiset(t[..m]) + tail - tail;
      multiset(t[..m]);
    }
  }

  /** Overwriting the root with slot m removes one copy of the root from [0, m]. */
  lemma RootReplaced(s: seq<Elem>, m: nat)
    requires 0 < m < |s|
    ensures multiset(s[0 := s[m]][..m]) == multiset(s[..m + 1]) - multiset{s[0]}
  {
    var mid := s[1..m];
    assert s[0 := s[m]][..m] == [s[m]] + mid;
    assert s[..m + 1] == [s[0]] + (mid + [s[m]]);
    calc {
      multiset(s[..m + 1]) - multiset{s[0]};
      multiset{s[0]} + multiset(mid + [s[m]]) - multiset{s[0]};
      multiset(mid + [s[m]]);
      multiset([s[m]] + mid);
    }
  }

  /** Overwriting the root of a heap leaves the order broken at most below the root. */
  lemma RootOverwritten(o: PriorityOrder, s: seq<Elem>, m: nat)
    requires 0 < m < |s| && IsHeap(o, s, m + 1)
    ensures HeapExcept(o, s[0 := s[m]], 0, 0, m)
  {
    var t := s[0 := s[m]];
    forall j | 0 < j < m && Up(j) != 0
      ensures Ordered(o, t[Up(j)], t[j])
    {
      assert Ordered(o, s[Up(j)], s[j]);
    }
  }

  /** ExtractMax/ExtractMin on a heap of size n = m + 1: [0, m) is again a heap, it holds the old
      heap's elements minus one copy of the old root, and the slots from m on are untouched. */
  lemma AfterExtractHeap(o: PriorityOrder, s: seq<Elem>, m: nat)
    requires m < |s| && IsHeap(o, s, m + 1)
    ensures |AfterExtract(o, s, m)| == |s|
    ensures IsHeap(o, AfterExtract(o, s, m), m)
    ensures multiset(AfterExtract(o, s, m)[..m]) == multiset(s[..m + 1]) - multiset{s[0]}
    ensures AfterExtract(o, s, m)[m..] == s[m..]
  {
    if m > 0 {
      RootOverwritten(o, s, m);
      SiftDownRestores(o, s[0 := s[m]], 0, 0, m);
      AfterExtractRemovesRoot(o, s, m);
    }
  }

  /** The same for a heap that fills the whole list. */
  lemma AfterExtractWhole(o: PriorityOrder, s: seq<Elem>)
    requires |s| > 0 && IsHeap(o, s, |s|)
    ensures IsHeap(o, AfterExtract(o, s, |s| - 1), |s| - 1)
    ensures multiset(AfterExtract(o, s, |s| - 1)[..|s| - 1]) == multiset(s) - multiset{s[0]}
  {
    var m := |s| - 1;
    assert IsHeap(o, s, m + 1);
    AfterExtractHeap(o, s, m);
    WholeMultiset(s, m);
  }

  lemma WholeMultiset(s: seq<Elem>, m: nat)
    requires m + 1 == |s|
    ensures multiset(s[..m + 1]) == multiset(s)
  {
    assert s[..m + 1] == s;
  }

  lemma AfterExtractRemovesRoot(o: PriorityOrder, s: seq<Elem>, m: nat)
    requires 0 < m < |s|
    ensures multiset(AfterExtract(o, s, m)[..m]) == multiset(s[..m + 1]) - multiset{s[0]}
    ensures AfterExtract(o, s, m)[m..] == s[m..]
  {
    var t := s[0 := s[m]];
    var r := SiftDown(o, t, 0, m);
    assert r == AfterExtract(o, s, m);
    PrefixMultiset(r, t, m);
    RootReplaced(s, m);
    SameFrom(r, s, m);
  }

  lemma SameFrom(r: seq<Elem>, s: seq<Elem>, m: nat)
    requires |r| == |s| && m <= |s| && forall j :: m <= j < |s| ==> r[j] == s[j]
    ensures r[m..] == s[m..]
  {
  }

  /** Successive extractions come out in order: the next root is dominated by the extracted one. */
  lemma ExtractMonotone(o: PriorityOrder, s: seq<Elem>, m: nat)
    requires 0 < m < |s| && IsHeap(o, s, m + 1)
    ensures Ordered(o, s[0], AfterExtract(o, s, m)[0])
  {
    var r := AfterExtract(o, s, m);
    AfterExtractHeap(o, s, m);
    var x := r[0];
    assert r[..m][0] == x;
    assert x in multiset(r[..m]);
    var whole := multiset(s[..m + 1]);
    assert x in whole - multiset{s[0]};
    assert x in whole;
    assert x in s[..m + 1];
    var j :| 0 <= j < m + 1 && s[..m + 1][j] == x;
    HeapRootDominates(o, s, m + 1, j);
  }

  // ---------------------------------------------------------------- increase key / insert

  lemma {:induction false} OnChainBelow(i: nat, j: nat)
    requires OnChain(i, j)
    ensures j <= i
    decreases i
  {
    if j != i {
      OnChainBelow(HeapParent(i), j);
    }
  }

  /** The climb only swaps along the chain i, i>>1, ..., 0, and the value it starts with ends up
      somewhere on that chain. */
  lemma {:induction false} SiftUpAlongChain(o: PriorityOrder, s: seq<Elem>, i: nat)
    requires i < |s|
    ensures forall j :: 0 <= j < |s| && !OnChain(i, j) ==> SiftUp(o, s, i)[j] == s[j]
    ensures exists j: nat :: OnChain(i, j) && j < |s| && SiftUp(o, s, i)[j] == s[i]
    decreases i
  {
    var r := SiftUp(o, s, i);
    if i > 0 && Rises(o, s[i], s[HeapParent(i)]) {
      var p := HeapParent(i);
      var t := Swap(s, i, p);
      assert r == SiftUp(o, t, p);
      SiftUpAlongChain(o, t, p);
      var j: nat :| OnChain(p, j) && j < |s| && SiftUp(o, t, p)[j] == t[p];
      assert OnChain(i, j) && r[j] == s[i];
      assert OnChain(p, p);
    } else {
      assert r == s;
      assert OnChain(i, i) && r[i] == s[i];
    }
  }

  /** A successful MaxIncrease/MinDecrease keeps the length, trades the old key for the item in the
      multiset, and moves nothing off the chain index, index>>1, ..., 0. */
  lemma IncreaseKeyMoves(o: PriorityOrder, s: seq<Elem>, index: int, item: Elem)
    ensures var e := IncreaseKeyEffect(o, s, index, item);
      e.thrown == None ==>
        && 0 <= index < |s| && |e.items| == |s|
        && multiset(e.items) == multiset(s[index := item])
        && (forall j :: 0 <= j < |s| && !OnChain(index, j) ==> e.items[j] == s[j])
  {
    if 0 <= index < |s| {
      SiftUpAlongChain(o, s[index := item], index);
      assert OnChain(index, index);
    }
  }

  /** When the old root dominates the chain above slot i, the climb of a non-null item from i leaves
      at the root the more extreme of the old root and the item. */
  lemma {:induction false} SiftUpRoot(o: PriorityOrder, s: seq<Elem>, i: nat)
    requires 0 < i < |s| && s[i].Val?
    requires forall j :: 0 <= j < i && OnChain(HeapParent(i), j) ==> Ordered(o, s[0], s[j])
    ensures SiftUp(o, s, i)[0] == Extreme(o, s[0], s[i])
    decreases i
  {
    var p := HeapParent(i);
    assert OnChain(p, p);
    if Rises(o, s[i], s[p]) {
      var t := Swap(s, i, p);
      if p == 0 {
        OrderFacts(o, s[i], s[0], s[0]);
      } else {
        forall j | 0 <= j < p && OnChain(HeapParent(p), j)
          ensures Ordered(o, t[0], t[j])
        {
          assert OnChain(p, j);
        }
        SiftUpRoot(o, t, p);
      }
    } else {
      OrderFacts(o, s[i], s[p], s[0]);
      OrderFacts(o, s[0], s[p], s[i]);
    }
  }

  /** MaxInsert/MinInsert with no stale slots (heapSize == Count): the list grows by exactly one.
      The call succeeds exactly when the item is non-null and no more extreme than the sentinel;
      then the item lands on the chain from slot heapSize to 0, nothing off that chain moves and
      the multiset gains the item. A throw leaves the sentinel appended. */
  lemma InsertAppends(o: PriorityOrder, s: seq<Elem>, item: Elem, sentinel: Elem)
    ensures var e := InsertEffect(o, s, item, sentinel, |s|);
      && |e.items| == |s| + 1
      && (e.thrown == None <==> item.Val? && Ordered(o, sentinel, item))
      && (e.thrown != None ==> e.thrown == Some(Argument) && e.items == s + [sentinel])
      && (e.thrown == None ==>
            && multiset(e.items) == multiset(s) + multiset{item}
            && (forall j :: 0 <= j < |s| && !OnChain(|s|, j) ==> e.items[j] == s[j])
            && (exists j: nat :: OnChain(|s|, j) && j <= |s| && e.items[j] == item))
  {
    var e := InsertEffect(o, s, item, sentinel, |s|);
    var u := (s + [sentinel])[|s| := item];
    assert u == s + [item];
    if e.thrown == None {
      SiftUpAlongChain(o, u, |s|);
      var j: nat :| OnChain(|s|, j) && j < |u| && SiftUp(o, u, |s|)[j] == u[|s|];
    }
  }

  /** With stale slots (heapSize < Count), MaxInsert/MinInsert write the sentinel one slot past
      heapSize but check and place the item at slot heapSize, so the guard compares the item with
      the stale value left there. */
  lemma InsertChecksStaleSlot(o: PriorityOrder, s: seq<Elem>, item: Elem, sentinel: Elem, h: nat)
    requires h < |s|
    ensures var e := InsertEffect(o, s, item, sentinel, h);
      && |e.items| == (if h + 1 < |s| then |s| else |s| + 1)
      && (e.thrown == None <==> item.Val? && Ordered(o, s[h], item))
      && (e.thrown != None ==> e.thrown == Some(Argument))
  {
    var t := if h + 1 < |s| then s[h + 1 := sentinel] else s + [sentinel];
    assert t[h] == s[h];
  }

  /** With no stale slots and a root that dominates the heap, a successful MaxInsert/MinInsert
      leaves at the root the more extreme of the old root and the item. */
  lemma InsertRoot(o: PriorityOrder, s: seq<Elem>, item: Elem, sentinel: Elem)
    requires forall j :: 0 <= j < |s| ==> Ordered(o, s[0], s[j])
    requires InsertEffect(o, s, item, sentinel, |s|).thrown == None
    ensures |s| == 0 ==> InsertEffect(o, s, item, sentinel, |s|).items == [item]
    ensures |s| > 0 ==> InsertEffect(o, s, item, sentinel, |s|).items[0] == Extreme(o, s[0], item)
  {
    var u := (s + [sentinel])[|s| := item];
    assert u == s + [item];
    if |s| > 0 {
      SiftUpRoot(o, u, |s|);
    }
  }

  /** The queue's weaker invariant survives an insert at the end: when the root dominates every
      slot before, the new root is the more extreme of the old root and the item, and it dominates
      every slot after. */
  lemma InsertKeepsRoot(o: PriorityOrder, s: seq<Elem>, item: Elem, sentinel: Elem)
    requires forall j :: 0 <= j < |s| ==> Ordered(o, s[0], s[j])
    requires InsertEffect(o, s, item, sentinel, |s|).thrown == None
    ensures |s| == 0 ==> InsertEffect(o, s, item, sentinel, |s|).items == [item]
    ensures |s| > 0 ==> InsertEffect(o, s, item, sentinel, |s|).items[0] == Extreme(o, s[0], item)
    ensures var e := InsertEffect(o, s, item, sentinel, |s|);
      forall j :: 0 <= j < |e.items| ==> Ordered(o, e.items[0], e.items[j])
  {
    var e := InsertEffect(o, s, item, sentinel, |s|);
    InsertAppends(o, s, item, sentinel);
    InsertRoot(o, s, item, sentinel);
    var top := e.items[0];
    OrderFacts(o, top, top, top);
    if |s| > 0 {
      OrderFacts(o, s[0], item, item);
      OrderFacts(o, item, s[0], s[0]);
      assert Ordered(o, top, item) && Ordered(o, top, s[0]);
    }
    forall j | 0 <= j < |e.items|
      ensures Ordered(o, top, e.items[j])
    {
      var x := e.items[j];
      assert x in multiset(e.items);
      if x != item {
        assert x in multiset(s);
        var k :| 0 <= k < |s| && s[k] == x;
        OrderFacts(o, top, s[0], x);
      }
    }
  }

  /** The parent formula i >> 1 does not invert HeapRight, so a climb can stop below the wrong
      node: the max-heap [10, 1, 9, 0] plus 5 becomes [10, 1, 9, 0, 5], with 5 under 1. */
  lemma InsertBreaksHeapOrder(s: seq<Elem>, item: Elem)
    requires s == [Val(10), Val(1), Val(9), Val(0)] && item == Val(5)
    ensures forall i: nat :: HeapParent(HeapRight(i)) == i + 1
    ensures IsHeap(Max, s, 4)
    ensures InsertEffect(Max, s, item, Val(2147483647), 4) == Effect(s + [item], None)
    ensures !IsHeap(Max, s + [item], 5)
  {
    var t := s + [Val(2147483647)];
    var u := t[4 := item];
    assert u == s + [item];
    assert HeapParent(4) == 2 && !Rises(Max, u[4], u[2]);
    assert SiftUp(Max, u, 4) == u;
    assert Up(4) == 1 && !Ordered(Max, u[1], u[4]);
  }
}
