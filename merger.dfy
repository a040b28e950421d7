/** Merger.SortedMerge: merge several sources by repeatedly yielding the lowest current head.
    Each source's enumerator is a cursor: source i has yielded its first pos[i] elements, and
    MoveNext succeeded exactly when pos[i] < |sources[i]|. */
module Merger {
  import opened Elements
  import Sorter

  /** Every cursor lies within its source. */
  predicate Cursors(sources: seq<seq<Elem>>, pos: seq<nat>) {
    |pos| == |sources| && forall i :: 0 <= i < |pos| ==> pos[i] <= |sources[i]|
  }

  /** Source i's enumerator has a current value. */
  predicate HasHead(sources: seq<seq<Elem>>, pos: seq<nat>, i: int)
    requires Cursors(sources, pos)
  {
    0 <= i < |sources| && pos[i] < |sources[i]|
  }

  function Head(sources: seq<seq<Elem>>, pos: seq<nat>, i: int): Elem
    requires Cursors(sources, pos) && HasHead(sources, pos, i)
  {
    sources[i][pos[i]]
  }

  /** The cursors before the first MoveNext. */
  function Start(sources: seq<seq<Elem>>): (pos: seq<nat>)
    ensures Cursors(sources, pos) && forall i :: 0 <= i < |pos| ==> pos[i] == 0
  {
    seq(|sources|, _ => 0)
  }

  /** What sources 0 .. k-1 have still to yield. */
  function Rest(sources: seq<seq<Elem>>, pos: seq<nat>, k: nat): multiset<Elem>
    requires Cursors(sources, pos) && k <= |sources|
  {
    if k == 0 then multiset{} else Rest(sources, pos, k - 1) + multiset(sources[k - 1][pos[k - 1]..])
  }

  /** Every element of sources 0 .. k-1. */
  function All(sources: seq<seq<Elem>>, k: nat): multiset<Elem>
    requires k <= |sources|
  {
    if k == 0 then multiset{} else All(sources, k - 1) + multiset(sources[k - 1])
  }

  /** Advancing source j by one takes its head out of what is still to yield. */
  lemma {:induction false} RestAdvance(sources: seq<seq<Elem>>, pos: seq<nat>, j: nat, k: nat)
    requires Cursors(sources, pos) && HasHead(sources, pos, j) && k <= |sources|
    ensures Cursors(sources, pos[j := pos[j] + 1])
    ensures Rest(sources, pos, k) ==
              Rest(sources, pos[j := pos[j] + 1], k) + (if j < k then multiset{Head(sources, pos, j)} else multiset{})
  {
    if k > 0 {
      RestAdvance(sources, pos, j, k - 1);
      if j == k - 1 {
        DropHead(sources[j], pos[j]);
      }
    }
  }

  /** Moving a cursor past the head of what a source still has to yield removes that head. */
  lemma DropHead(s: seq<Elem>, p: nat)
    requires p < |s|
    ensures multiset(s[p..]) == multiset(s[p + 1..]) + multiset{s[p]}
  {
    assert s[p..] == [s[p]] + s[p + 1..];
  }

  /** Before the first MoveNext everything is still to yield. */
  lemma {:induction false} RestAtStart(sources: seq<seq<Elem>>, k: nat)
    requires k <= |sources|
    ensures Rest(sources, Start(sources), k) == All(sources, k)
  {
    if k > 0 {
      RestAtStart(sources, k - 1);
      assert sources[k - 1][0..] == sources[k - 1];
    }
  }

  /** The inner for loop over sources 0 .. k-1: it keeps the index of the lowest current head,
      replacing it when a source's head is null or below the kept value; -1 when no source
      has a value. */
  function ScanLow(sources: seq<seq<Elem>>, pos: seq<nat>, k: nat): (low: int)
    requires Cursors(sources, pos) && k <= |sources|
    ensures -1 <= low < k
    ensures low == -1 <==> forall i :: 0 <= i < k ==> !HasHead(sources, pos, i)
    ensures low >= 0 ==> HasHead(sources, pos, low)
  {
    if k == 0 then -1
    else
      var low := ScanLow(sources, pos, k - 1);
      if HasHead(sources, pos, k - 1) && (low < 0 || Picks(Min, Head(sources, pos, k - 1), Head(sources, pos, low)))
      then k - 1
      else low
  }

  /** The scan finds a lowest head; among equal values the first source wins, and a null head
      wins only when no later source has a null head. */
  lemma {:induction false} ScanLowIsLowest(sources: seq<seq<Elem>>, pos: seq<nat>, k: nat)
    requires Cursors(sources, pos) && k <= |sources|
    ensures var low := ScanLow(sources, pos, k);
      low >= 0 ==>
        && (forall i :: 0 <= i < k && HasHead(sources, pos, i) ==> Le(Head(sources, pos, low), Head(sources, pos, i)))
        && (Head(sources, pos, low).Val? ==>
              forall i :: 0 <= i < low && HasHead(sources, pos, i) ==> Lt(Head(sources, pos, low), Head(sources, pos, i)))
        && (Head(sources, pos, low).Null? ==>
              forall i :: low < i < k && HasHead(sources, pos, i) ==> Head(sources, pos, i).Val?)
  {
    if k > 0 {
      ScanLowIsLowest(sources, pos, k - 1);
      var low := ScanLow(sources, pos, k - 1);
      if HasHead(sources, pos, k - 1) && low >= 0 {
        OrderFacts(Min, Head(sources, pos, k - 1), Head(sources, pos, low), Head(sources, pos, low));
      }
    }
  }

  /** One more iteration of the scan looks at source k. */
  lemma ScanStep(sources: seq<seq<Elem>>, pos: seq<nat>, k: nat)
    requires Cursors(sources, pos) && k < |sources|
    ensures var low := ScanLow(sources, pos, k);
      ScanLow(sources, pos, k + 1) ==
        if HasHead(sources, pos, k) && (low < 0 || Picks(Min, Head(sources, pos, k), Head(sources, pos, low)))
        then k else low
  {
  }

  /** What the merge yields once the cursors stand at `pos`: exactly what the sources still hold,
      each element once. */
  function MergeFrom(sources: seq<seq<Elem>>, pos: seq<nat>): (r: seq<Elem>)
    requires Cursors(sources, pos)
    ensures multiset(r) == Rest(sources, pos, |sources|)
    decreases |Rest(sources, pos, |sources|)|
  {
    var low := ScanLow(sources, pos, |sources|);
    if low < 0 then
      NothingLeft(sources, pos, |sources|);
      []
    else
      RestAdvance(sources, pos, low, |sources|);
      [Head(sources, pos, low)] + MergeFrom(sources, pos[low := pos[low] + 1])
  }

  /** One round of the merge: nothing when no source has a value, else the lowest head followed
      by the merge of what remains. */
  lemma MergeFromStep(sources: seq<seq<Elem>>, pos: seq<nat>, low: int)
    requires Cursors(sources, pos) && low == ScanLow(sources, pos, |sources|)
    ensures low < 0 ==> MergeFrom(sources, pos) == []
    ensures low >= 0 ==>
              && Cursors(sources, pos[low := pos[low] + 1])
              && MergeFrom(sources, pos) == [Head(sources, pos, low)] + MergeFrom(sources, pos[low := pos[low] + 1])
  {
    if low >= 0 {
      assert Cursors(sources, pos[low := pos[low] + 1]);
    }
  }

  /** SortedMerge yields every element of every source, once: a permutation of their union. */
  function Merge(sources: seq<seq<Elem>>): (r: seq<Elem>)
    ensures multiset(r) == All(sources, |sources|)
    ensures |r| == |All(sources, |sources|)|
  {
    RestAtStart(sources, |sources|);
    MergeFrom(sources, Start(sources))
  }

  lemma {:induction false} NothingLeft(sources: seq<seq<Elem>>, pos: seq<nat>, k: nat)
    requires Cursors(sources, pos) && k <= |sources|
    requires forall i :: 0 <= i < k ==> !HasHead(sources, pos, i)
    ensures Rest(sources, pos, k) == multiset{}
  {
    if k > 0 {
      NothingLeft(sources, pos, k - 1);
      assert !HasHead(sources, pos, k - 1);
      assert sources[k - 1][pos[k - 1]..] == [];
    }
  }

  /** With ascending sources, a value that is at most every current head is at most everything
      still to yield. */
  lemma {:induction false} BelowRest(sources: seq<seq<Elem>>, pos: seq<nat>, k: nat, x: Elem)
    requires Cursors(sources, pos) && k <= |sources|
    requires forall i :: 0 <= i < |sources| ==> Sorter.SortedIn(Sorter.Ascending, sources[i])
    requires forall i :: 0 <= i < k && HasHead(sources, pos, i) ==> Le(x, Head(sources, pos, i))
    ensures forall e :: e in Rest(sources, pos, k) ==> Le(x, e)
  {
    if k > 0 {
      BelowRest(sources, pos, k - 1, x);
      var s, p := sources[k - 1], pos[k - 1];
      forall e | e in multiset(s[p..])
        ensures Le(x, e)
      {
        var m :| 0 <= m < |s[p..]| && s[p..][m] == e;
        assert e == s[p + m];
        assert HasHead(sources, pos, k - 1);
        assert Le(x, s[p]);
        assert Sorter.SortedIn(Sorter.Ascending, s);
        assert Le(s[p], s[p + m]) by {
          if m > 0 {
            assert Ordered(Max, s[p + m], s[p]);
          }
        }
      }
    }
  }

  /** A value at most everything in an ascending sequence can go in front of it. */
  lemma ConsAscends(h: Elem, tail: seq<Elem>)
    requires Sorter.SortedIn(Sorter.Ascending, tail)
    requires forall e :: e in multiset(tail) ==> Le(h, e)
    ensures Sorter.SortedIn(Sorter.Ascending, [h] + tail)
  {
    var out := [h] + tail;
    forall a, b | 0 <= a < b < |out|
      ensures Ordered(Max, out[b], out[a])
    {
      if a == 0 {
        assert out[b] == tail[b - 1] && tail[b - 1] in multiset(tail);
      } else {
        assert out[a] == tail[a - 1] && out[b] == tail[b - 1];
      }
    }
  }

  /** With ascending sources the merge ascends. */
  lemma {:induction false} MergeFromAscends(sources: seq<seq<Elem>>, pos: seq<nat>)
    requires Cursors(sources, pos)
    requires forall i :: 0 <= i < |sources| ==> Sorter.SortedIn(Sorter.Ascending, sources[i])
    ensures Sorter.SortedIn(Sorter.Ascending, MergeFrom(sources, pos))
    decreases |Rest(sources, pos, |sources|)|
  {
    var low := ScanLow(sources, pos, |sources|);
    MergeFromStep(sources, pos, low);
    if low >= 0 {
      var h := Head(sources, pos, low);
      var next := pos[low := pos[low] + 1];
      RestAdvance(sources, pos, low, |sources|);
      MergeFromAscends(sources, next);
      ScanLowIsLowest(sources, pos, |sources|);
      BelowRest(sources, pos, |sources|, h);
      ConsAscends(h, MergeFrom(sources, next));
    }
  }

  /** SortedMerge of ascending sources ascends (nulls first). */
  lemma MergeAscends(sources: seq<seq<Elem>>)
    requires forall i :: 0 <= i < |sources| ==> Sorter.SortedIn(Sorter.Ascending, sources[i])
    ensures Sorter.SortedIn(Sorter.Ascending, Merge(sources))
  {
    MergeFromAscends(sources, Start(sources));
  }

  /** The hasValue flags mirror the cursors: flag j is set exactly when source j has a
      current value. */
  predicate Tracks(sources: seq<seq<Elem>>, pos: seq<nat>, hasValue: seq<bool>) {
    && Cursors(sources, pos) && |hasValue| == |sources|
    && forall j :: 0 <= j < |sources| ==> hasValue[j] == HasHead(sources, pos, j)
  }

  /** The scan of one round: a for loop over the sources that keeps the lowest head seen so far,
      with the null and CompareTo tests of the source. */
  method FindLowest(sources: seq<seq<Elem>>, pos: seq<nat>, hasValue: seq<bool>) returns (lowIdx: int, lowVal: Elem)
    requires Tracks(sources, pos, hasValue)
    ensures lowIdx == ScanLow(sources, pos, |sources|)
    ensures lowIdx >= 0 ==> lowVal == Head(sources, pos, lowIdx)
  {
    lowIdx := -1;
    lowVal := Null;
    for i := 0 to |sources|
      invariant lowIdx == ScanLow(sources, pos, i)
      invariant lowIdx >= 0 ==> lowVal == Head(sources, pos, lowIdx)
    {
      ScanStep(sources, pos, i);
      if hasValue[i] {
        var current := sources[i][pos[i]];
        if lowIdx < 0 || current == Null || CompareTo(current, lowVal) < 0 {
          lowIdx := i;
          lowVal := current;
        }
      }
    }
  }

  /** The first MoveNext on every source. */
  method FirstMoves(sources: seq<seq<Elem>>) returns (hasValue: seq<bool>)
    ensures Tracks(sources, Start(sources), hasValue)
  {
    hasValue := [];
    for i := 0 to |sources|
      invariant |hasValue| == i
      invariant forall j :: 0 <= j < i ==> hasValue[j] == (0 < |sources[j]|)
    {
      hasValue := hasValue + [0 < |sources[i]|];
    }
  }

  /** One round of the loop: advancing the source of the lowest head and appending that head
      keeps the flags in step and the output a prefix of the merge, and leaves less to yield. */
  lemma AdvanceRound(sources: seq<seq<Elem>>, pos: seq<nat>, hasValue: seq<bool>, out: seq<Elem>, low: int, whole: seq<Elem>)
    requires Tracks(sources, pos, hasValue) && low == ScanLow(sources, pos, |sources|) && low >= 0
    requires out + MergeFrom(sources, pos) == whole
    ensures var next := pos[low := pos[low] + 1];
      && Tracks(sources, next, hasValue[low := next[low] < |sources[low]|])
      && (out + [Head(sources, pos, low)]) + MergeFrom(sources, next) == whole
      && |Rest(sources, next, |sources|)| < |Rest(sources, pos, |sources|)|
  {
    var next := pos[low := pos[low] + 1];
    MergeFromStep(sources, pos, low);
    RestAdvance(sources, pos, low, |sources|);
    AdvanceTracks(sources, pos, hasValue, low);
    YieldOne(out, Head(sources, pos, low), MergeFrom(sources, pos), MergeFrom(sources, next), whole);
  }

  /** Advancing source j keeps the flags in step when flag j takes the new MoveNext result. */
  lemma AdvanceTracks(sources: seq<seq<Elem>>, pos: seq<nat>, hasValue: seq<bool>, j: int)
    requires Tracks(sources, pos, hasValue) && HasHead(sources, pos, j)
    ensures var next := pos[j := pos[j] + 1];
      Tracks(sources, next, hasValue[j := next[j] < |sources[j]|])
  {
    var next := pos[j := pos[j] + 1];
    assert Cursors(sources, next);
  }

  /** Yielding the head of what remains keeps the output a prefix of the whole. */
  lemma YieldOne(out: seq<Elem>, h: Elem, rest: seq<Elem>, tail: seq<Elem>, whole: seq<Elem>)
    requires out + rest == whole && rest == [h] + tail
    ensures (out + [h]) + tail == whole
  {
    assert (out + [h]) + tail == out + ([h] + tail);
  }

  /** SortedMerge: ArgumentNullException for an empty sources array; otherwise one MoveNext
      per source, then repeatedly scan for the lowest head, advance its source and yield it,
      until no source has a value. */
  method SortedMerge(sources: seq<seq<Elem>>) returns (r: Result<seq<Elem>>)
    ensures |sources| == 0 ==> r == Failure(ArgumentNull)
    ensures |sources| > 0 ==> r == Success(Merge(sources))
  {
    if |sources| == 0 {
      return Failure(ArgumentNull);
    }
    var pos: seq<nat> := Start(sources);
    var hasValue := FirstMoves(sources);
    if forall i :: 0 <= i < |hasValue| ==> !hasValue[i] {
      MergeFromStep(sources, pos, ScanLow(sources, pos, |sources|));
      return Success([]);
    }
    var out: seq<Elem> := [];
    while true
      invariant Tracks(sources, pos, hasValue)
      invariant out + MergeFrom(sources, pos) == Merge(sources)
      decreases |Rest(sources, pos, |sources|)|
    {
      var lowIdx, lowVal := FindLowest(sources, pos, hasValue);
      if lowIdx < 0 {
        MergeFromStep(sources, pos, lowIdx);
        assert out + [] == out;
        break;
      }
      AdvanceRound(sources, pos, hasValue, out, lowIdx, Merge(sources));
      pos := pos[lowIdx := pos[lowIdx] + 1];
      hasValue := hasValue[lowIdx := pos[lowIdx] < |sources[lowIdx]|];
      out := out + [lowVal];
    }
    r := Success(out);
  }

  /** What two sources hold together. */
  lemma AllOfTwo(a: seq<Elem>, b: seq<Elem>)
    ensures All([a, b], 2) == multiset(a) + multiset(b)
  {
    var s := [a, b];
    assert All(s, 1) == All(s, 0) + multiset(a) == multiset(a);
  }

  /** Interleaving the pieces of two sequences keeps their elements. */
  lemma Interleaved(a0: seq<Elem>, a1: seq<Elem>, a2: seq<Elem>, a3: seq<Elem>,
                    b0: seq<Elem>, b1: seq<Elem>, b2: seq<Elem>, b3: seq<Elem>)
    ensures multiset(a0 + a1 + a2 + a3) + multiset(b0 + b1 + b2 + b3)
         == multiset(a0 + b0 + a1 + b1 + a2 + b2 + a3 + b3)
  {
  }

  /** The merge of ascending sources is the one ascending arrangement of their union. */
  lemma MergeIsSortedUnion(sources: seq<seq<Elem>>, expected: seq<Elem>)
    requires forall i :: 0 <= i < |sources| ==> Sorter.SortedIn(Sorter.Ascending, sources[i])
    requires Sorter.SortedIn(Sorter.Ascending, expected)
    requires All(sources, |sources|) == multiset(expected)
    ensures Merge(sources) == expected
  {
    MergeAscends(sources);
    Sorter.SortedPermutationUnique(Max, Merge(sources), expected);
  }

  /** The same for two sources. */
  lemma MergeOfTwo(a: seq<Elem>, b: seq<Elem>, expected: seq<Elem>)
    requires Sorter.SortedIn(Sorter.Ascending, a) && Sorter.SortedIn(Sorter.Ascending, b)
    requires Sorter.SortedIn(Sorter.Ascending, expected)
    requires multiset(a) + multiset(b) == multiset(expected)
    ensures Merge([a, b]) == expected
  {
    AllOfTwo(a, b);
    MergeIsSortedUnion([a, b], expected);
  }

  lemma DistinctSourcesSorted(a: seq<Elem>, b: seq<Elem>, expected: seq<Elem>)
    requires a == [Val(1), Val(3), Val(6), Val(102), Val(105), Val(230)]
    requires b == [Val(101), Val(103), Val(112), Val(155), Val(231)]
    requires expected == [Val(1), Val(3), Val(6), Val(101), Val(102), Val(103), Val(105), Val(112), Val(155), Val(230), Val(231)]
    ensures Sorter.SortedIn(Sorter.Ascending, a) && Sorter.SortedIn(Sorter.Ascending, b)
    ensures Sorter.SortedIn(Sorter.Ascending, expected)
  {
  }

  lemma DistinctSourcesPermute(a: seq<Elem>, b: seq<Elem>, expected: seq<Elem>)
    requires a == [Val(1), Val(3), Val(6), Val(102), Val(105), Val(230)]
    requires b == [Val(101), Val(103), Val(112), Val(155), Val(231)]
    requires expected == [Val(1), Val(3), Val(6), Val(101), Val(102), Val(103), Val(105), Val(112), Val(155), Val(230), Val(231)]
    ensures multiset(a) + multiset(b) == multiset(expected)
  {
    var a0, a1, a2, a3 := [Val(1), Val(3), Val(6)], [Val(102)], [Val(105)], [Val(230)];
    var b0, b1, b2, b3 := [Val(101)], [Val(103)], [Val(112), Val(155)], [Val(231)];
    assert a == a0 + a1 + a2 + a3;
    assert b == b0 + b1 + b2 + b3;
    assert expected == a0 + b0 + a1 + b1 + a2 + b2 + a3 + b3;
    Interleaved(a0, a1, a2, a3, b0, b1, b2, b3);
  }

  /** Two ascending integer sources with no value in common: the merge yields all eleven
      values in strictly ascending order. */
  lemma MergeDistinctSources(a: seq<Elem>, b: seq<Elem>, expected: seq<Elem>)
    requires a == [Val(1), Val(3), Val(6), Val(102), Val(105), Val(230)]
    requires b == [Val(101), Val(103), Val(112), Val(155), Val(231)]
    requires expected == [Val(1), Val(3), Val(6), Val(101), Val(102), Val(103), Val(105), Val(112), Val(155), Val(230), Val(231)]
    ensures Merge([a, b]) == expected
  {
    DistinctSourcesSorted(a, b, expected);
    DistinctSourcesPermute(a, b, expected);
    MergeOfTwo(a, b, expected);
  }

  lemma NullSourcesSorted(a: seq<Elem>, b: seq<Elem>, expected: seq<Elem>)
    requires a == [Null, Val(43)] && b == [Null, Val(23)] && expected == [Null, Null, Val(23), Val(43)]
    ensures Sorter.SortedIn(Sorter.Ascending, a) && Sorter.SortedIn(Sorter.Ascending, b)
    ensures Sorter.SortedIn(Sorter.Ascending, expected)
  {
  }

  lemma NullSourcesPermute(a: seq<Elem>, b: seq<Elem>, expected: seq<Elem>)
    requires a == [Null, Val(43)] && b == [Null, Val(23)] && expected == [Null, Null, Val(23), Val(43)]
    ensures multiset(a) + multiset(b) == multiset(expected)
  {
    assert b == [Null] + [Val(23)] + [] + [] && a == [Null] + [Val(43)] + [] + [];
    assert expected == [Null] + [Null] + [Val(23)] + [Val(43)] + [] + [] + [] + [];
    Interleaved([Null], [Val(23)], [], [], [Null], [Val(43)], [], []);
  }

  /** Two sources that start with a null: both nulls come first, then the values ascending,
      four elements in all. */
  lemma MergeNullSources(a: seq<Elem>, b: seq<Elem>, expected: seq<Elem>)
    requires a == [Null, Val(43)] && b == [Null, Val(23)] && expected == [Null, Null, Val(23), Val(43)]
    ensures Merge([a, b]) == expected
  {
    NullSourcesSorted(a, b, expected);
    NullSourcesPermute(a, b, expected);
    MergeOfTwo(a, b, expected);
  }

  /** The merge scenarios run through SortedMerge itself. */
  method MergeScenario() returns (distinct: Result<seq<Elem>>, nulls: Result<seq<Elem>>, none: Result<seq<Elem>>)
    ensures distinct == Success([Val(1), Val(3), Val(6), Val(101), Val(102), Val(103), Val(105), Val(112), Val(155), Val(230), Val(231)])
    ensures nulls == Success([Null, Null, Val(23), Val(43)])
    ensures none == Failure(ArgumentNull)
  {
    var a := [Val(1), Val(3), Val(6), Val(102), Val(105), Val(230)];
    var b := [Val(101), Val(103), Val(112), Val(155), Val(231)];
    distinct := SortedMerge([a, b]);
    MergeDistinctSources(a, b, [Val(1), Val(3), Val(6), Val(101), Val(102), Val(103), Val(105), Val(112), Val(155), Val(230), Val(231)]);
    var c, d := [Null, Val(43)], [Null, Val(23)];
    nulls := SortedMerge([c, d]);
    MergeNullSources(c, d, [Null, Null, Val(23), Val(43)]);
    none := SortedMerge([]);
  }
}
