/** Values stored by the library, their order, the exceptions the operations raise,
    and the mutable list (IList<T>) the in-place algorithms work on. */
module Elements {

  /** A stored element: a `null` reference or a non-null comparable value (an int key). */
  datatype Elem = Null | Val(v: int)

  /** The total order the library relies on: `null` sorts below every value. */
  predicate Le(a: Elem, b: Elem) {
    a.Null? || (b.Val? && a.v <= b.v)
  }

  predicate Lt(a: Elem, b: Elem) {
    !Le(b, a)
  }

  /** `a.CompareTo(b)` for a non-null receiver; comparing a value with `null` is positive. */
  function CompareTo(a: Elem, b: Elem): (c: int)
    requires a.Val?
    ensures c == 0 <==> a == b
    ensures c < 0 <==> Lt(a, b)
    ensures c > 0 <==> Lt(b, a)
  {
    if b.Null? then 1 else if a.v < b.v then -1 else if a.v == b.v then 0 else 1
  }

  /** PriorityOrder: which end of the order sits at the root of a heap. */
  datatype PriorityOrder = Min | Max

  /** `p` may sit above `c` in an `o`-ordered heap (parent >= child for Max, <= for Min). */
  predicate Ordered(o: PriorityOrder, p: Elem, c: Elem) {
    if o == Max then Le(c, p) else Le(p, c)
  }

  /** The more extreme of two elements for order `o` (the first one on a tie). */
  function Extreme(o: PriorityOrder, a: Elem, b: Elem): Elem {
    if Ordered(o, a, b) then a else b
  }

  /** Heapify's strict child test: MaxHeapify takes a non-null child greater than the current
      best; MinHeapify takes a null child, or a non-null child smaller than the current best. */
  predicate Picks(o: PriorityOrder, child: Elem, best: Elem) {
    if o == Max then child.Val? && Lt(best, child)
    else child.Null? || Lt(child, best)
  }

  /** The sift-up loop test: MaxIncrease climbs while the parent is null or smaller than the
      child; MinDecrease climbs while the child is null or smaller than the parent. */
  predicate Rises(o: PriorityOrder, child: Elem, parent: Elem) {
    if o == Max then parent.Null? || Lt(parent, child)
    else child.Null? || Lt(child, parent)
  }

  /** The exceptions the modelled operations throw. */
  datatype Exn =
    | IndexOutOfRange      // System.IndexOutOfRangeException
    | ArgumentOutOfRange   // a list index outside [0, Count)
    | Argument             // System.ArgumentException
    | InvalidOperation     // System.InvalidOperationException
    | ArgumentNull         // System.ArgumentNullException

  datatype Option<T> = None | Some(value: T)

  datatype Result<T> = Success(value: T) | Failure(error: Exn)

  /** What a mutating list operation leaves behind: the new contents and the exception
      it threw, if any (a throw can come after part of the mutation). */
  datatype Effect = Effect(items: seq<Elem>, thrown: Option<Exn>)

  /** The mutable, growable list (IList<T>) that the algorithms update in place. */
  class ElemList {
    var items: seq<Elem>

    constructor (s: seq<Elem>)
      ensures items == s
    {
      items := s;
    }
  }

  function Swap(s: seq<Elem>, i: nat, j: nat): (r: seq<Elem>)
    requires i < |s| && j < |s|
    ensures |r| == |s| && r[i] == s[j] && r[j] == s[i]
    ensures forall k :: 0 <= k < |s| && k != i && k != j ==> r[k] == s[k]
    ensures multiset(r) == multiset(s)
  {
    s[i := s[j]][j := s[i]]
  }

  /** Both directions of the link between the order and the heap relations. */
  lemma OrderFacts(o: PriorityOrder, a: Elem, b: Elem, c: Elem)
    ensures Ordered(o, a, a)
    ensures Ordered(o, a, b) && Ordered(o, b, c) ==> Ordered(o, a, c)
    ensures Ordered(o, a, b) && Ordered(o, b, a) ==> a == b
    ensures Ordered(o, a, b) || Ordered(o, b, a)
    ensures Picks(o, a, b) ==> Ordered(o, a, b)
    ensures !Picks(o, a, b) ==> Ordered(o, b, a)
    ensures !Rises(o, a, b) ==> Ordered(o, b, a)
    ensures Rises(o, a, b) && a.Val? ==> !Ordered(o, b, a)
  {
  }
}
