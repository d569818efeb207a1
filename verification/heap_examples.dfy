/** The worked examples of the heap's documentation, on integers in ascending
    order, checked against the corrected operations and, where they differ,
    against the code as written. Each step is its own small lemma. */
module HeapExamples {
  import opened HeapIndex
  import opened HeapOrder
  import opened Heap
  import opened HeapAsWritten

  /** A swap is two updates. This repeats `Swap`'s body and promises nothing
      new; it exists only so that the examples below need not unfold `Swap`
      on a literal, which keeps their proofs cheap. */
  lemma SwapUpdates<P>(s: seq<P>, i: nat, j: nat)
    requires i < |s| && j < |s|
    ensures Swap(s, i, j) == s[i := s[j]][j := s[i]]
  {
  }

  // ---------------------------------------------------------------------------
  // insert
  // ---------------------------------------------------------------------------

  lemma InsertTwoIntoEmpty()
    ensures Insert(IntCompare, [], 2) == [2]
  {
  }

  lemma SwapRootPair(a: int, b: int)
    ensures Parent(1) == 0
    ensures Swap([a, b], 1, 0) == [b, a]
  {
  }

  lemma InsertZero()
    ensures Insert(IntCompare, [2], 0) == [0, 2]
  {
    assert [2] + [0] == [2, 0];
    SwapRootPair(2, 0);
    assert SiftUp(IntCompare, [2, 0], 1) == SiftUp(IntCompare, [0, 2], 0);
  }

  lemma InsertZeroAsWritten()
    ensures SiftUpAsWritten(IntCompare, [2, 0], 1, 1) == ([0, 2], 0)
  {
    SwapRootPair(2, 0);
    assert SiftUpPass(IntCompare, [2, 0], 1) == ([0, 2], 0);
  }

  lemma SwapMinusTenToRoot()
    ensures Parent(2) == 0
    ensures Swap([0, 2, -10], 2, 0) == [-10, 2, 0]
  {
    SwapUpdates([0, 2, -10], 2, 0);
    assert [0, 2, -10][2 := 0][0 := -10] == [-10, 2, 0];
  }

  lemma InsertMinusTen()
    ensures Insert(IntCompare, [0, 2], -10) == [-10, 2, 0]
  {
    assert [0, 2] + [-10] == [0, 2, -10];
    SwapMinusTenToRoot();
    assert SiftUp(IntCompare, [0, 2, -10], 2) == SiftUp(IntCompare, [-10, 2, 0], 0);
  }

  lemma InsertMinusTenAsWritten()
    ensures SiftUpAsWritten(IntCompare, [0, 2, -10], 2, 1) == ([-10, 2, 0], 0)
  {
    SwapMinusTenToRoot();
    assert SiftUpPass(IntCompare, [0, 2, -10], 2) == ([-10, 2, 0], 0);
  }

  /** The documentation's first three insertions: the loop as written reaches
      the root on each, and the third yields `[-10, 2, 0]`, not the
      documented `[-10, 0, 2]`. */
  lemma InsertDocumentedExamples()
    ensures Insert(IntCompare, [], 2) == [2]
    ensures Insert(IntCompare, [2], 0) == [0, 2]
    ensures SiftUpAsWritten(IntCompare, [2, 0], 1, 1) == ([0, 2], 0)
    ensures Insert(IntCompare, [0, 2], -10) == [-10, 2, 0] != [-10, 0, 2]
    ensures SiftUpAsWritten(IntCompare, [0, 2, -10], 2, 1) == ([-10, 2, 0], 0)
  {
    InsertTwoIntoEmpty();
    InsertZero();
    InsertZeroAsWritten();
    InsertMinusTen();
    InsertMinusTenAsWritten();
  }

  lemma InsertOne()
    ensures Insert(IntCompare, [-10, 0, 2], 1) == [-10, 0, 2, 1]
  {
    assert [-10, 0, 2] + [1] == [-10, 0, 2, 1];
    assert Parent(3) == 1;
  }

  /** The documentation's fourth insertion, `[-10, 0, 2] ins 1`: the
      corrected insert yields `[-10, 0, 2, 1]`; the loop as written is still
      at index 3 after any number of passes, so it never returns. */
  lemma InsertOneNeverExits(fuel: nat)
    ensures Insert(IntCompare, [-10, 0, 2], 1) == [-10, 0, 2, 1]
    ensures SiftUpAsWritten(IntCompare, [-10, 0, 2] + [1], 3, fuel) == ([-10, 0, 2, 1], 3)
  {
    InsertOne();
    assert [-10, 0, 2] + [1] == [-10, 0, 2, 1];
    assert Parent(3) == 1;
    StalledSiftUpNeverExits(IntCompare, [-10, 0, 2, 1], 3, fuel);
  }

  lemma SiftUpOneFirstStep()
    ensures SiftUp(IntCompare, [3, 5, 8, 1], 3) == SiftUp(IntCompare, [3, 1, 8, 5], 1)
  {
    assert Parent(3) == 1;
    SwapUpdates([3, 5, 8, 1], 3, 1);
    assert [3, 5, 8, 1][3 := 5][1 := 1] == [3, 1, 8, 5];
  }

  lemma SiftUpOneSecondStep()
    ensures SiftUp(IntCompare, [3, 1, 8, 5], 1) == [1, 3, 8, 5]
  {
    assert Parent(1) == 0;
    SwapUpdates([3, 1, 8, 5], 1, 0);
    assert [3, 1, 8, 5][1 := 3][0 := 1] == [1, 3, 8, 5];
    assert SiftUp(IntCompare, [3, 1, 8, 5], 1) == SiftUp(IntCompare, [1, 3, 8, 5], 0);
  }

  lemma InsertOneIntoThree()
    ensures Insert(IntCompare, [3, 5, 8], 1) == [1, 3, 8, 5]
  {
    assert [3, 5, 8] + [1] == [3, 5, 8, 1];
    SiftUpOneFirstStep();
    SiftUpOneSecondStep();
  }

  lemma InsertThreeIntoFive()
    ensures Insert(IntCompare, [5], 3) == [3, 5]
  {
    assert [5] + [3] == [5, 3];
    SwapRootPair(5, 3);
    assert SiftUp(IntCompare, [5, 3], 1) == SiftUp(IntCompare, [3, 5], 0);
  }

  lemma InsertEightIntoTwo()
    ensures Insert(IntCompare, [3, 5], 8) == [3, 5, 8]
  {
    assert [3, 5] + [8] == [3, 5, 8];
    assert Parent(2) == 0;
  }

  lemma RunFirstInsert(ops: seq<Op<int>>)
    ensures Run(IntCompare, [], [InsertOp(5)] + ops) == Run(IntCompare, [5], ops)
  {
    assert ([InsertOp(5)] + ops)[0] == InsertOp(5);
    assert ([InsertOp(5)] + ops)[1..] == ops;
    assert Insert(IntCompare, [], 5) == [5];
  }

  lemma RunSecondInsert(ops: seq<Op<int>>)
    ensures Run(IntCompare, [5], [InsertOp(3)] + ops) == Run(IntCompare, [3, 5], ops)
  {
    assert ([InsertOp(3)] + ops)[0] == InsertOp(3);
    assert ([InsertOp(3)] + ops)[1..] == ops;
    InsertThreeIntoFive();
  }

  lemma RunThirdInsert(ops: seq<Op<int>>)
    ensures Run(IntCompare, [3, 5], [InsertOp(8)] + ops) == Run(IntCompare, [3, 5, 8], ops)
  {
    assert ([InsertOp(8)] + ops)[0] == InsertOp(8);
    assert ([InsertOp(8)] + ops)[1..] == ops;
    InsertEightIntoTwo();
  }

  lemma RunFourthInsert()
    ensures Run(IntCompare, [3, 5, 8], [InsertOp(1)]) == [1, 3, 8, 5]
  {
    InsertOneIntoThree();
    assert [InsertOp(1)][1..] == [];
  }

  /** As written, inserting 8 into `[3, 5]` already hangs: 8 is not below
      its parent 3, so the loop stays at index 2 after any number of passes. */
  lemma InsertEightNeverExits(fuel: nat)
    ensures SiftUpAsWritten(IntCompare, [3, 5] + [8], 2, fuel) == ([3, 5, 8], 2)
  {
    assert [3, 5] + [8] == [3, 5, 8];
    assert Parent(2) == 0;
    StalledSiftUpNeverExits(IntCompare, [3, 5, 8], 2, fuel);
  }

  /** Inserting 5, 3, 8 and 1 into an empty heap puts 1 at the root. */
  lemma InsertThenPeek()
    ensures Run(IntCompare, [], [InsertOp(5), InsertOp(3), InsertOp(8), InsertOp(1)]) == [1, 3, 8, 5]
    ensures GetPriority([1, 3, 8, 5]) == Ok(1)
  {
    var ops := [InsertOp(5), InsertOp(3), InsertOp(8), InsertOp(1)];
    assert ops == [InsertOp(5)] + ops[1..];
    assert ops[1..] == [InsertOp(3)] + ops[2..];
    assert ops[2..] == [InsertOp(8)] + [InsertOp(1)];
    RunFirstInsert(ops[1..]);
    RunSecondInsert(ops[2..]);
    RunThirdInsert([InsertOp(1)]);
    RunFourthInsert();
  }

  // ---------------------------------------------------------------------------
  // remove
  // ---------------------------------------------------------------------------

  lemma DocumentedHeap()
    ensures IsHeap(IntCompare, [-11, -10, 0, 1, 0, 2, 1])
  {
  }

  lemma SwapTargetWithLast()
    ensures Swap([-11, -10, 0, 1, 0, 2, 1], 1, 6) == [-11, 1, 0, 1, 0, 2, -10]
  {
    SwapUpdates([-11, -10, 0, 1, 0, 2, 1], 1, 6);
    assert [-11, -10, 0, 1, 0, 2, 1][1 := 1][6 := -10] == [-11, 1, 0, 1, 0, 2, -10];
  }

  lemma SiftDownAfterRemovingOne()
    ensures SiftDown(IntCompare, [-11, 1, 0, 1, 0, 2], 1) == [-11, 0, 0, 1, 1, 2]
  {
    SwapUpdates([-11, 1, 0, 1, 0, 2], 4, 1);
    assert [-11, 1, 0, 1, 0, 2][4 := 1][1 := 0] == [-11, 0, 0, 1, 1, 2];
    assert SiftDown(IntCompare, [-11, 1, 0, 1, 0, 2], 1) == SiftDown(IntCompare, [-11, 0, 0, 1, 1, 2], 4);
  }

  lemma RemoveOneCorrected()
    ensures Remove(IntCompare, [-11, -10, 0, 1, 0, 2, 1], 1) == Ok([-11, 0, 0, 1, 1, 2])
  {
    SwapTargetWithLast();
    assert [-11, 1, 0, 1, 0, 2, -10][..6] == [-11, 1, 0, 1, 0, 2];
    SiftDownAfterRemovingOne();
    RemoveFillsSlot(IntCompare, [-11, -10, 0, 1, 0, 2, 1], 1);
  }

  lemma AsWrittenSiftDownStops()
    ensures SiftDown(IntCompare, [-11, 0, 1, 0, 2, -10], 1) == [-11, 0, 1, 0, 2, -10]
  {
  }

  lemma RemoveOneAsWritten()
    ensures RemoveAsWritten(IntCompare, [-11, -10, 0, 1, 0, 2, 1], 1) == Ok([-11, 0, 1, 0, 2, -10])
  {
    var swapped := [-11, 1, 0, 1, 0, 2, -10];
    SwapTargetWithLast();
    assert swapped[..1] + swapped[2..] == [-11, 0, 1, 0, 2, -10];
    AsWrittenSiftDownStops();
    RemoveAsWrittenDeletesSlot(IntCompare, [-11, -10, 0, 1, 0, 2, 1], 1);
  }

  lemma AsWrittenResultIsNotHeap()
    ensures !IsHeap(IntCompare, [-11, 0, 1, 0, 2, -10])
  {
    assert Parent(5) == 2;
  }

  /** The documentation's `[-11, -10, 0, 1, 0, 2, 1] remove(1)`: the corrected
      removal yields the documented `[-11, 0, 0, 1, 1, 2]`. As written, `-10`
      stays in the heap, one `1` is lost, and the result is not a heap. */
  lemma RemoveDocumentedExample()
    ensures IsHeap(IntCompare, [-11, -10, 0, 1, 0, 2, 1])
    ensures Remove(IntCompare, [-11, -10, 0, 1, 0, 2, 1], 1) == Ok([-11, 0, 0, 1, 1, 2])
    ensures RemoveAsWritten(IntCompare, [-11, -10, 0, 1, 0, 2, 1], 1) == Ok([-11, 0, 1, 0, 2, -10])
    ensures !IsHeap(IntCompare, [-11, 0, 1, 0, 2, -10])
  {
    DocumentedHeap();
    RemoveOneCorrected();
    RemoveOneAsWritten();
    AsWrittenResultIsNotHeap();
  }

  lemma InteriorHeap()
    ensures IsHeap(IntCompare, [0, 10, 1, 11, 12, 2, 3])
  {
  }

  lemma InteriorSwap()
    ensures Swap([0, 10, 1, 11, 12, 2, 3], 3, 6)[..6] == [0, 10, 1, 3, 12, 2]
  {
    SwapUpdates([0, 10, 1, 11, 12, 2, 3], 3, 6);
    assert [0, 10, 1, 11, 12, 2, 3][3 := 3][6 := 11][..6] == [0, 10, 1, 3, 12, 2];
  }

  lemma InteriorSiftDownIsLeaf()
    ensures SiftDown(IntCompare, [0, 10, 1, 3, 12, 2], 3) == [0, 10, 1, 3, 12, 2]
  {
  }

  lemma InteriorSiftUp()
    ensures SiftUp(IntCompare, [0, 10, 1, 3, 12, 2], 3) == [0, 3, 1, 10, 12, 2]
  {
    assert Parent(3) == 1;
    SwapUpdates([0, 10, 1, 3, 12, 2], 3, 1);
    assert [0, 10, 1, 3, 12, 2][3 := 10][1 := 3] == [0, 3, 1, 10, 12, 2];
    assert SiftUp(IntCompare, [0, 10, 1, 3, 12, 2], 3) == SiftUp(IntCompare, [0, 3, 1, 10, 12, 2], 1);
  }

  lemma InteriorSiftDownOnly()
    ensures RemoveSiftDownOnly(IntCompare, [0, 10, 1, 11, 12, 2, 3], 3) == Ok([0, 10, 1, 3, 12, 2])
  {
    InteriorSwap();
    InteriorSiftDownIsLeaf();
  }

  lemma InteriorSiftDownOnlyIsNotHeap()
    ensures !IsHeap(IntCompare, [0, 10, 1, 3, 12, 2])
  {
    assert Parent(3) == 1;
  }

  lemma InteriorRemoveCorrected()
    ensures Remove(IntCompare, [0, 10, 1, 11, 12, 2, 3], 3) == Ok([0, 3, 1, 10, 12, 2])
  {
    InteriorSwap();
    InteriorSiftUp();
    assert Parent(3) == 1;
    RemoveFillsSlot(IntCompare, [0, 10, 1, 11, 12, 2, 3], 3);
  }

  lemma InteriorCorrectedIsHeap()
    ensures IsHeap(IntCompare, [0, 3, 1, 10, 12, 2])
  {
  }

  /** Removing index 3 of the heap `[0, 10, 1, 11, 12, 2, 3]`: the last
      element 3 lands under 10 and a sift-down alone leaves it there, so the
      result is not a heap; the corrected removal sifts it up. */
  lemma InteriorRemoveNeedsSiftUp()
    ensures IsHeap(IntCompare, [0, 10, 1, 11, 12, 2, 3])
    ensures RemoveSiftDownOnly(IntCompare, [0, 10, 1, 11, 12, 2, 3], 3) == Ok([0, 10, 1, 3, 12, 2])
    ensures !IsHeap(IntCompare, [0, 10, 1, 3, 12, 2])
    ensures Remove(IntCompare, [0, 10, 1, 11, 12, 2, 3], 3) == Ok([0, 3, 1, 10, 12, 2])
    ensures IsHeap(IntCompare, [0, 3, 1, 10, 12, 2])
  {
    InteriorHeap();
    InteriorSiftDownOnly();
    InteriorSiftDownOnlyIsNotHeap();
    InteriorRemoveCorrected();
    InteriorCorrectedIsHeap();
  }
}
