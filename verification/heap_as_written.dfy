/** The places where `Heap.java` does not do what its comments say, modelled
    as the code is written so that each difference can be exhibited. The
    corrected definitions are the ones in module `Heap`. */
module HeapAsWritten {
  import opened HeapIndex
  import opened HeapOrder
  import opened Heap

  // ---------------------------------------------------------------------------
  // The sift-up loop of `insert` has no exit for an element that stays put
  // ---------------------------------------------------------------------------

  /** One pass of the body of the sift-up loop as written: it moves `i` to the
      parent only when it swaps; otherwise nothing changes. `Parent` makes the
      loop's own even/odd choice of the parent's index. */
  function SiftUpPass<P>(cmp: (P, P) -> int, s: seq<P>, i: nat): (r: (seq<P>, nat))
    requires 0 < i < |s|
    ensures |r.0| == |s| && r.1 < |s|
    ensures multiset(r.0) == multiset(s)
    ensures r.1 == i <==> !(cmp(s[i], s[Parent(i)]) < 0)
    ensures r.1 == i ==> r.0 == s
  {
    if cmp(s[i], s[Parent(i)]) < 0 then
      SwapPermutes(s, i, Parent(i));
      (Swap(s, i, Parent(i)), Parent(i))
    else (s, i)
  }

  /** The sift-up loop as written, run for at most `fuel` passes; the loop
      itself stops only when `i` reaches 0. */
  function SiftUpAsWritten<P>(cmp: (P, P) -> int, s: seq<P>, i: nat, fuel: nat): (r: (seq<P>, nat))
    requires i < |s|
    ensures |r.0| == |s| && r.1 <= i
    ensures multiset(r.0) == multiset(s)
    decreases fuel
  {
    if i == 0 || fuel == 0 then (s, i)
    else
      var next := SiftUpPass(cmp, s, i);
      SiftUpAsWritten(cmp, next.0, next.1, fuel - 1)
  }

  /** Once the element is not strictly below its parent, no number of further
      passes moves it, so the loop never ends. */
  lemma {:induction false} StalledSiftUpNeverExits<P>(cmp: (P, P) -> int, s: seq<P>, i: nat, fuel: nat)
    requires 0 < i < |s| && !(cmp(s[i], s[Parent(i)]) < 0)
    ensures SiftUpAsWritten(cmp, s, i, fuel) == (s, i)
    decreases fuel
  {
    if fuel > 0 {
      StalledSiftUpNeverExits(cmp, s, i, fuel - 1);
    }
  }

  /** A pass that swaps hands the loop on to the parent with one pass fewer. */
  lemma AsWrittenSwapStep<P>(cmp: (P, P) -> int, s: seq<P>, i: nat, fuel: nat)
    requires 0 < i < |s| && fuel > 0 && cmp(s[i], s[Parent(i)]) < 0
    ensures SiftUpAsWritten(cmp, s, i, fuel) == SiftUpAsWritten(cmp, Swap(s, i, Parent(i)), Parent(i), fuel - 1)
  {
    assert SiftUpPass(cmp, s, i) == (Swap(s, i, Parent(i)), Parent(i));
  }

  /** The corrected sift-up takes the same step. */
  lemma SiftUpSwapStep<P>(cmp: (P, P) -> int, s: seq<P>, i: nat)
    requires 0 < i < |s| && cmp(s[i], s[Parent(i)]) < 0
    ensures SiftUp(cmp, s, i) == SiftUp(cmp, Swap(s, i, Parent(i)), Parent(i))
  {
  }

  /** Whenever the loop as written does reach the root, it has computed what
      the corrected sift-up computes. */
  lemma {:induction false} SiftUpAsWrittenAgreesWhenItExits<P>(cmp: (P, P) -> int, s: seq<P>, i: nat, fuel: nat)
    requires i < |s| && SiftUpAsWritten(cmp, s, i, fuel).1 == 0
    ensures SiftUpAsWritten(cmp, s, i, fuel) == (SiftUp(cmp, s, i), 0)
    decreases fuel
  {
    if i > 0 {
      if fuel == 0 {
        assert false;
      } else if cmp(s[i], s[Parent(i)]) < 0 {
        AsWrittenSwapStep(cmp, s, i, fuel);
        SiftUpSwapStep(cmp, s, i);
        SiftUpAsWrittenAgreesWhenItExits(cmp, Swap(s, i, Parent(i)), Parent(i), fuel - 1);
      } else {
        StalledSiftUpNeverExits(cmp, s, i, fuel);
        assert false;
      }
    }
  }

  // ---------------------------------------------------------------------------
  // `remove` deletes slot `i` after the swap instead of the last slot
  // ---------------------------------------------------------------------------

  /** Deleting slot `i` of a sequence removes one copy of its element. */
  lemma DeleteSlot<P>(s: seq<P>, i: nat)
    requires i < |s|
    ensures multiset(s[..i] + s[i + 1..]) == multiset(s) - multiset{s[i]}
  {
    assert s == s[..i] + [s[i]] + s[i + 1..];
  }

  /** `remove(i)` as written: after trading places with the last element it
      deletes slot `i`, which now holds the former last element, and keeps the
      element the caller asked to remove in the last slot. */
  function RemoveAsWritten<P>(cmp: (P, P) -> int, s: seq<P>, i: int): (r: Result<seq<P>>)
    ensures r.Err? <==> i < 0 || i > |s| - 1
    ensures r.Err? ==> r.error == InvalidIndex
    ensures r.Ok? ==> |r.value| == |s| - 1
    ensures r.Ok? ==> multiset(r.value) == multiset(s) - multiset{s[|s| - 1]}
  {
    if i < 0 || i > |s| - 1 then Err(InvalidIndex)
    else
      var size := |s| - 1;
      var swapped := Swap(s, i, size);
      SwapPermutes(s, i, size);
      DeleteSlot(swapped, i);
      Ok(SiftDown(cmp, swapped[..i] + swapped[i + 1..], i))
  }

  /** An accepted removal as written deletes slot `i` after the swap. */
  lemma RemoveAsWrittenDeletesSlot<P>(cmp: (P, P) -> int, s: seq<P>, i: nat)
    requires i < |s|
    ensures RemoveAsWritten(cmp, s, i)
      == Ok(SiftDown(cmp, Swap(s, i, |s| - 1)[..i] + Swap(s, i, |s| - 1)[i + 1..], i))
  {
  }

  // ---------------------------------------------------------------------------
  // `remove` only sifts down
  // ---------------------------------------------------------------------------

  /** A hybrid that isolates the missing sift-up: `remove(i)` with the last
      slot dropped as intended, but, as in the source, only a sift-down to
      put the moved element back in order. */
  function RemoveSiftDownOnly<P>(cmp: (P, P) -> int, s: seq<P>, i: int): (r: Result<seq<P>>)
    ensures r.Err? <==> i < 0 || i > |s| - 1
    ensures r.Err? ==> r.error == InvalidIndex
    ensures r.Ok? ==> |r.value| == |s| - 1
    ensures r.Ok? ==> multiset(r.value) == multiset(s) - multiset{s[i]}
  {
    if i < 0 || i > |s| - 1 then Err(InvalidIndex)
    else
      var last := |s| - 1;
      var swapped := Swap(s, i, last);
      SwapPermutes(s, i, last);
      assert swapped == swapped[..last] + [s[i]];
      Ok(SiftDown(cmp, swapped[..last], i))
  }

  /** At the root a sift-down is all that is needed: removing index 0 from a
      heap that way agrees with the corrected removal and leaves a heap. */
  lemma RemoveRootNeedsNoSiftUp<P(!new)>(cmp: (P, P) -> int, s: seq<P>)
    requires Comparator(cmp) && IsHeap(cmp, s)
    ensures RemoveSiftDownOnly(cmp, s, 0) == Remove(cmp, s, 0)
    ensures |s| > 0 ==> IsHeap(cmp, RemoveSiftDownOnly(cmp, s, 0).value)
  {
    RemovePreservesHeap(cmp, s, 0);
  }
}
