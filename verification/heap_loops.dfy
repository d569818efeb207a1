/** The heap's operations as the loops that carry them out, each proved to
    compute the corresponding function of module `Heap`. */
module HeapLoops {
  import opened HeapIndex
  import opened HeapOrder
  import opened Heap

  /** The sift-up loop of `insert`, stopping once the element is not
      strictly below its parent. */
  method SiftUpLoop<P>(cmp: (P, P) -> int, heap: seq<P>, start: nat) returns (r: seq<P>)
    requires start < |heap|
    ensures r == SiftUp(cmp, heap, start)
  {
    r := heap;
    var i: nat := start;
    while i > 0
      invariant i < |r|
      invariant SiftUp(cmp, r, i) == SiftUp(cmp, heap, start)
      decreases i
    {
      var elem := r[i];
      if i % 2 == 0 {
        // a right child
        var parent := r[i / 2 - 1];
        assert i / 2 - 1 == Parent(i);
        if cmp(elem, parent) < 0 {
          r := Swap(r, i, i / 2 - 1);
          i := i / 2 - 1;
        } else {
          break;
        }
      } else {
        // a left child
        var parent := r[i / 2];
        assert i / 2 == Parent(i);
        if cmp(elem, parent) < 0 {
          r := Swap(r, i, i / 2);
          i := i / 2;
        } else {
          break;
        }
      }
    }
  }

  /** The sift-down loop of `remove`. */
  method SiftDownLoop<P>(cmp: (P, P) -> int, heap: seq<P>, start: nat) returns (r: seq<P>)
    ensures r == SiftDown(cmp, heap, start)
  {
    r := heap;
    var size := |r|;
    var i: nat := start;
    while i < size
      invariant size == |r|
      invariant SiftDown(cmp, r, i) == SiftDown(cmp, heap, start)
      decreases size - i
    {
      var cl := 2 * i + 1;
      var cr := 2 * i + 2;
      var p := r[i];
      if cl < size {
        var l := r[cl];
        if cr < size {
          var rc := r[cr];
          if cmp(rc, l) < 0 && cmp(rc, p) < 0 {
            r := Swap(r, cr, i);
            i := cr;
            continue;
          }
        }
        if cmp(l, p) < 0 {
          r := Swap(r, cl, i);
          i := cl;
          continue;
        } else {
          break;
        }
      } else {
        break;
      }
    }
  }

  /** `insert`: append, then sift up. */
  method InsertLoop<P(!new)>(cmp: (P, P) -> int, heap: seq<P>, p: P) returns (r: seq<P>)
    ensures r == Insert(cmp, heap, p)
    ensures Comparator(cmp) && IsHeap(cmp, heap) ==> IsHeap(cmp, r)
  {
    r := SiftUpLoop(cmp, heap + [p], |heap|);
    if Comparator(cmp) && IsHeap(cmp, heap) {
      InsertPreservesHeap(cmp, heap, p);
    }
  }

  /** Sends the element that removal moved into slot `i` up or down. */
  method RepositionLoop<P>(cmp: (P, P) -> int, t: seq<P>, i: nat) returns (r: seq<P>)
    requires i <= |t|
    ensures r == Reposition(cmp, t, i)
  {
    if 0 < i < |t| && cmp(t[i], t[Parent(i)]) < 0 {
      r := SiftUpLoop(cmp, t, i);
    } else {
      r := SiftDownLoop(cmp, t, i);
    }
  }

  /** `remove(i)`: refuse an index outside the heap before touching it;
      otherwise move the last element into slot `i`, drop the last slot and
      put the moved element back in order. */
  method RemoveLoop<P(!new)>(cmp: (P, P) -> int, heap: seq<P>, i: int) returns (r: seq<P>, outcome: Outcome)
    ensures outcome.Fail? <==> i < 0 || i > |heap| - 1
    ensures outcome.Fail? ==> outcome.error == InvalidIndex && r == heap
    ensures outcome.Pass? ==> Remove(cmp, heap, i) == Ok(r)
    ensures Comparator(cmp) && IsHeap(cmp, heap) ==> IsHeap(cmp, r)
  {
    var size := |heap|;
    if i < 0 || i > size - 1 {
      return heap, Fail(InvalidIndex);
    }
    size := size - 1;
    var t := Swap(heap, i, size)[..size];
    RemoveFillsSlot(cmp, heap, i);
    r := RepositionLoop(cmp, t, i);
    outcome := Pass;
    if Comparator(cmp) && IsHeap(cmp, heap) {
      RemovePreservesHeap(cmp, heap, i);
    }
  }

  /** Appending the root of `h` to an ascending `out` whose elements are at
      most every element of `h` keeps `out` ascending, and its elements are
      then at most every element that remains. */
  lemma ExtractStep<P(!new)>(cmp: (P, P) -> int, out: seq<P>, h: seq<P>, rest: seq<P>)
    requires Comparator(cmp) && IsHeap(cmp, h) && |h| > 0
    requires multiset(rest) == multiset(h) - multiset{h[0]}
    requires forall j, k :: 0 <= j < k < |out| ==> cmp(out[j], out[k]) <= 0
    requires forall j, x :: 0 <= j < |out| && x in h ==> cmp(out[j], x) <= 0
    ensures forall j, k :: 0 <= j < k < |out + [h[0]]| ==> cmp((out + [h[0]])[j], (out + [h[0]])[k]) <= 0
    ensures forall j, x :: 0 <= j < |out + [h[0]]| && x in rest ==> cmp((out + [h[0]])[j], x) <= 0
  {
    GetPriorityIsMinimum(cmp, h);
    var out' := out + [h[0]];
    forall j, k | 0 <= j < k < |out'|
      ensures cmp(out'[j], out'[k]) <= 0
    {
      if k == |out| {
        assert h[0] in h;
      }
    }
    forall j, x | 0 <= j < |out'| && x in rest
      ensures cmp(out'[j], x) <= 0
    {
      assert x in multiset(rest);
      assert x in h;
    }
  }

  /** Reads and removes the root until the heap is empty: the elements come
      out in ascending order. */
  method ExtractAll<P(!new)>(cmp: (P, P) -> int, heap: seq<P>) returns (out: seq<P>)
    requires Comparator(cmp) && IsHeap(cmp, heap)
    ensures multiset(out) == multiset(heap)
    ensures forall j, k :: 0 <= j < k < |out| ==> cmp(out[j], out[k]) <= 0
  {
    var h := heap;
    out := [];
    while |h| > 0
      invariant IsHeap(cmp, h)
      invariant multiset(out) + multiset(h) == multiset(heap)
      invariant forall j, k :: 0 <= j < k < |out| ==> cmp(out[j], out[k]) <= 0
      invariant forall j, x :: 0 <= j < |out| && x in h ==> cmp(out[j], x) <= 0
      decreases |h|
    {
      var top := GetPriority(h);
      var rest, _ := RemoveLoop(cmp, h, 0);
      ExtractStep(cmp, out, h, rest);
      assert h[0] in multiset(h);
      out := out + [top.value];
      h := rest;
    }
  }
}
