/** A binary min-heap kept in an array. The heap's state is the sequence of
    its elements; the comparator it was constructed with is passed to every
    operation that orders elements. A freshly constructed heap is `[]`. */
module Heap {
  import opened HeapIndex
  import opened HeapOrder

  /** The two ways a heap operation can fail. */
  datatype HeapError = InvalidIndex | EmptyHeap

  /** The value of an operation that may fail. */
  datatype Result<T> = Ok(value: T) | Err(error: HeapError)

  /** Whether an operation that returns nothing succeeded. */
  datatype Outcome = Pass | Fail(error: HeapError)

  /** The heap property: no element compares below its parent. The empty
      heap a constructor makes, and any one-element heap, have it. */
  predicate IsHeap<P>(cmp: (P, P) -> int, s: seq<P>): (b: bool)
    ensures |s| <= 1 ==> b
  {
    forall i :: 0 < i < |s| ==> cmp(s[Parent(i)], s[i]) <= 0
  }

  /** Exchanges the elements at two positions. */
  function Swap<P>(s: seq<P>, i: nat, j: nat): (r: seq<P>)
    requires i < |s| && j < |s|
    ensures |r| == |s|
    ensures r[i] == s[j] && r[j] == s[i]
    ensures forall k :: 0 <= k < |s| && k != i && k != j ==> r[k] == s[k]
  {
    s[i := s[j]][j := s[i]]
  }

  /** A swap only rearranges the elements. */
  lemma SwapPermutes<P>(s: seq<P>, i: nat, j: nat)
    requires i < |s| && j < |s|
    ensures multiset(Swap(s, i, j)) == multiset(s)
  {
  }

  /** Moves the element at `i` towards the root while it compares strictly
      below its parent, and stops as soon as it does not. */
  function SiftUp<P>(cmp: (P, P) -> int, s: seq<P>, i: nat): (r: seq<P>)
    requires i < |s|
    ensures |r| == |s|
    ensures multiset(r) == multiset(s)
    decreases i
  {
    if i == 0 then s
    else if cmp(s[i], s[Parent(i)]) < 0 then
      SwapPermutes(s, i, Parent(i));
      SiftUp(cmp, Swap(s, i, Parent(i)), Parent(i))
    else s
  }

  /** A sift-up only moves elements on the path from `i` to the root, so
      every slot after `i` keeps its element. */
  lemma {:induction false} SiftUpKeepsLaterSlots<P>(cmp: (P, P) -> int, s: seq<P>, i: nat, k: nat)
    requires i < k < |s|
    ensures SiftUp(cmp, s, i)[k] == s[k]
    decreases i
  {
    if i > 0 && cmp(s[i], s[Parent(i)]) < 0 {
      SiftUpKeepsLaterSlots(cmp, Swap(s, i, Parent(i)), Parent(i), k);
    }
  }

  /** Moves the element at `i` towards the leaves. It trades places with the
      right child only when that child is strictly below both the left child
      and the element; otherwise with the left child when that child is
      strictly below the element; otherwise it stops. */
  function SiftDown<P>(cmp: (P, P) -> int, s: seq<P>, i: nat): (r: seq<P>)
    ensures |r| == |s|
    ensures multiset(r) == multiset(s)
    ensures forall k :: 0 <= k < i && k < |s| ==> r[k] == s[k]
    decreases |s| - i
  {
    if i >= |s| || Left(i) >= |s| then s
    else if Right(i) < |s| && cmp(s[Right(i)], s[Left(i)]) < 0 && cmp(s[Right(i)], s[i]) < 0 then
      SwapPermutes(s, Right(i), i);
      SiftDown(cmp, Swap(s, Right(i), i), Right(i))
    else if cmp(s[Left(i)], s[i]) < 0 then
      SwapPermutes(s, Left(i), i);
      SiftDown(cmp, Swap(s, Left(i), i), Left(i))
    else s
  }

  /** Appends `p` and sifts it up. */
  function Insert<P>(cmp: (P, P) -> int, s: seq<P>, p: P): (r: seq<P>)
    ensures |r| == |s| + 1
    ensures multiset(r) == multiset(s) + multiset{p}
  {
    SiftUp(cmp, s + [p], |s|)
  }

  /** Puts back in order the element that removal moved into slot `i`: it goes
      up when it is strictly below its new parent and down otherwise. */
  function Reposition<P>(cmp: (P, P) -> int, t: seq<P>, i: nat): (r: seq<P>)
    requires i <= |t|
    ensures |r| == |t|
    ensures multiset(r) == multiset(t)
  {
    if 0 < i < |t| && cmp(t[i], t[Parent(i)]) < 0 then SiftUp(cmp, t, i)
    else SiftDown(cmp, t, i)
  }

  /** Removes the element at index `i`: it trades places with the last
      element, the last slot is dropped and the moved element is put back in
      order. An index outside the heap is refused. */
  function Remove<P>(cmp: (P, P) -> int, s: seq<P>, i: int): (r: Result<seq<P>>)
    ensures r.Err? <==> i < 0 || i > |s| - 1
    ensures r.Err? ==> r.error == InvalidIndex
    ensures r.Ok? ==> |r.value| == |s| - 1
    ensures r.Ok? ==> multiset(r.value) == multiset(s) - multiset{s[i]}
  {
    if i < 0 || i > |s| - 1 then Err(InvalidIndex)
    else
      var last := |s| - 1;
      var swapped := Swap(s, i, last);
      SwapPermutes(s, i, last);
      assert swapped == swapped[..last] + [s[i]];
      Ok(Reposition(cmp, swapped[..last], i))
  }

  /** An accepted removal fills slot `i` from the last slot and repositions. */
  lemma RemoveFillsSlot<P>(cmp: (P, P) -> int, s: seq<P>, i: nat)
    requires i < |s|
    ensures Remove(cmp, s, i) == Ok(Reposition(cmp, Swap(s, i, |s| - 1)[..|s| - 1], i))
  {
  }

  /** The element at the root, which the heap property makes a minimum. */
  function GetPriority<P>(s: seq<P>): (r: Result<P>)
    ensures r.Err? <==> |s| == 0
    ensures r.Err? ==> r.error == EmptyHeap
    ensures r.Ok? ==> r.value == s[0]
  {
    if |s| == 0 then Err(EmptyHeap) else Ok(s[0])
  }

  /** A call on the heap's public interface. */
  datatype Op<P> = InsertOp(elem: P) | RemoveOp(index: int)

  /** The heap after one call; a refused removal leaves it as it was. */
  function Apply<P>(cmp: (P, P) -> int, s: seq<P>, op: Op<P>): (r: seq<P>)
    ensures op.InsertOp? ==> |r| == |s| + 1 && multiset(r) == multiset(s) + multiset{op.elem}
    ensures op.RemoveOp? && 0 <= op.index < |s| ==> |r| == |s| - 1
    ensures op.RemoveOp? && 0 <= op.index < |s| ==> multiset(r) == multiset(s) - multiset{s[op.index]}
    ensures op.RemoveOp? && !(0 <= op.index < |s|) ==> r == s
  {
    match op
    case InsertOp(p) => Insert(cmp, s, p)
    case RemoveOp(i) =>
      match Remove(cmp, s, i)
      case Ok(t) => t
      case Err(_) => s
  }

  /** The heap after a sequence of calls. */
  function Run<P>(cmp: (P, P) -> int, s: seq<P>, ops: seq<Op<P>>): seq<P>
    decreases |ops|
  {
    if |ops| == 0 then s else Run(cmp, Apply(cmp, s, ops[0]), ops[1..])
  }

  // ---------------------------------------------------------------------------
  // The heap property is preserved
  // ---------------------------------------------------------------------------

  /** The heap property, except that the element at `i` may compare below its
      parent; the element above `i` is at most each child of `i`. */
  ghost predicate HeapExceptUp<P>(cmp: (P, P) -> int, s: seq<P>, i: nat)
    requires i < |s|
  {
    && (forall j :: 0 < j < |s| && j != i ==> cmp(s[Parent(j)], s[j]) <= 0)
    && (i > 0 ==> forall j :: 0 < j < |s| && Parent(j) == i ==> cmp(s[Parent(i)], s[j]) <= 0)
  }

  /** The heap property, except that the element at `i` may compare above its
      children; the element above `i` is at most each child of `i`. */
  ghost predicate HeapExceptDown<P>(cmp: (P, P) -> int, s: seq<P>, i: nat) {
    && (forall j :: 0 < j < |s| && Parent(j) != i ==> cmp(s[Parent(j)], s[j]) <= 0)
    && (0 < i < |s| ==> forall j :: 0 < j < |s| && Parent(j) == i ==> cmp(s[Parent(i)], s[j]) <= 0)
  }

  /** Sifting up the only upward fault of a heap yields a heap. */
  lemma {:induction false} SiftUpRestoresHeap<P(!new)>(cmp: (P, P) -> int, s: seq<P>, i: nat)
    requires Comparator(cmp)
    requires i < |s| && HeapExceptUp(cmp, s, i)
    ensures IsHeap(cmp, SiftUp(cmp, s, i))
    decreases i
  {
    if i == 0 {
    } else if cmp(s[i], s[Parent(i)]) < 0 {
      var p := Parent(i);
      var t := Swap(s, i, p);
      forall j | 0 < j < |t| && j != p
        ensures cmp(t[Parent(j)], t[j]) <= 0
      {
        if j != i && (Parent(j) == i || Parent(j) == p) {
          Transitive(cmp, s[i], s[p], s[j]);
        }
      }
      if p > 0 {
        forall j | 0 < j < |t| && Parent(j) == p
          ensures cmp(t[Parent(p)], t[j]) <= 0
        {
          if j != i {
            Transitive(cmp, s[Parent(p)], s[p], s[j]);
          }
        }
      }
      SiftUpRestoresHeap(cmp, t, p);
    } else {
      NotBelow(cmp, s[i], s[Parent(i)]);
    }
  }

  /** Trading places with a child `c` that is strictly below the element and
      at most its sibling moves the fault of the heap property down to `c`. */
  lemma SiftDownStep<P(!new)>(cmp: (P, P) -> int, s: seq<P>, i: nat, c: nat)
    requires HeapExceptDown(cmp, s, i)
    requires c < |s| && (c == Left(i) || c == Right(i))
    requires cmp(s[c], s[i]) < 0
    requires forall d :: 0 < d < |s| && Parent(d) == i ==> cmp(s[c], s[d]) <= 0
    ensures HeapExceptDown(cmp, Swap(s, c, i), c)
  {
    var t := Swap(s, c, i);
    forall j | 0 < j < |t| && Parent(j) != c
      ensures cmp(t[Parent(j)], t[j]) <= 0
    {
      if j == i {
        assert cmp(s[Parent(i)], s[c]) <= 0;
      } else if Parent(j) == i {
        assert cmp(s[c], s[j]) <= 0;
      }
    }
    forall j | 0 < j < |t| && Parent(j) == c
      ensures cmp(t[Parent(c)], t[j]) <= 0
    {
      assert cmp(s[c], s[j]) <= 0;
    }
  }

  /** A node without children carries no fault. */
  lemma SiftDownAtLeaf<P>(cmp: (P, P) -> int, s: seq<P>, i: nat)
    requires HeapExceptDown(cmp, s, i)
    requires i >= |s| || Left(i) >= |s|
    ensures IsHeap(cmp, s)
  {
    forall j | 0 < j < |s|
      ensures cmp(s[Parent(j)], s[j]) <= 0
    {
      assert Parent(j) != i;
    }
  }

  /** The sibling the sift-down does not pick is at least the one it picks. */
  lemma SiftDownPicksSmallerChild<P(!new)>(cmp: (P, P) -> int, s: seq<P>, i: nat, c: nat)
    requires Comparator(cmp)
    requires i < |s| && Left(i) < |s|
    requires c == Left(i) || c == Right(i)
    requires c == Right(i) <==> Right(i) < |s| && cmp(s[Right(i)], s[Left(i)]) < 0 && cmp(s[Right(i)], s[i]) < 0
    requires cmp(s[c], s[i]) < 0
    ensures forall d :: 0 < d < |s| && Parent(d) == i ==> cmp(s[c], s[d]) <= 0
  {
    var l, r := Left(i), Right(i);
    Reflexive(cmp, s[c]);
    if c == l && r < |s| {
      if !(cmp(s[r], s[l]) < 0) {
        NotBelow(cmp, s[r], s[l]);
      } else {
        NotBelow(cmp, s[r], s[i]);
        Transitive(cmp, s[l], s[i], s[r]);
      }
    }
  }

  /** When neither child is strictly below the element, there is no fault. */
  lemma SiftDownStops<P(!new)>(cmp: (P, P) -> int, s: seq<P>, i: nat)
    requires Comparator(cmp)
    requires HeapExceptDown(cmp, s, i)
    requires i < |s| && Left(i) < |s|
    requires !(Right(i) < |s| && cmp(s[Right(i)], s[Left(i)]) < 0 && cmp(s[Right(i)], s[i]) < 0)
    requires !(cmp(s[Left(i)], s[i]) < 0)
    ensures IsHeap(cmp, s)
  {
    var l, r := Left(i), Right(i);
    NotBelow(cmp, s[l], s[i]);
    if r < |s| {
      if !(cmp(s[r], s[i]) < 0) {
        NotBelow(cmp, s[r], s[i]);
      } else {
        NotBelow(cmp, s[r], s[l]);
        Transitive(cmp, s[i], s[l], s[r]);
      }
    }
    forall j | 0 < j < |s| && Parent(j) == i
      ensures cmp(s[Parent(j)], s[j]) <= 0
    {
      assert j == l || j == r;
    }
  }

  /** Sifting down the only downward fault of a heap yields a heap. */
  lemma {:induction false} SiftDownRestoresHeap<P(!new)>(cmp: (P, P) -> int, s: seq<P>, i: nat)
    requires Comparator(cmp)
    requires HeapExceptDown(cmp, s, i)
    ensures IsHeap(cmp, SiftDown(cmp, s, i))
    decreases |s| - i
  {
    if i >= |s| || Left(i) >= |s| {
      SiftDownAtLeaf(cmp, s, i);
    } else {
      var l, r := Left(i), Right(i);
      var c := if r < |s| && cmp(s[r], s[l]) < 0 && cmp(s[r], s[i]) < 0 then r else l;
      if cmp(s[c], s[i]) < 0 {
        var t := Swap(s, c, i);
        assert SiftDown(cmp, s, i) == SiftDown(cmp, t, c);
        SiftDownPicksSmallerChild(cmp, s, i, c);
        SiftDownStep(cmp, s, i, c);
        SiftDownRestoresHeap(cmp, t, c);
      } else {
        assert SiftDown(cmp, s, i) == s;
        SiftDownStops(cmp, s, i);
      }
    }
  }

  /** Inserting into a heap yields a heap. */
  lemma InsertPreservesHeap<P(!new)>(cmp: (P, P) -> int, s: seq<P>, p: P)
    requires Comparator(cmp) && IsHeap(cmp, s)
    ensures IsHeap(cmp, Insert(cmp, s, p))
  {
    var t := s + [p];
    forall j | 0 < j < |t| && j != |s|
      ensures cmp(t[Parent(j)], t[j]) <= 0
    {
      assert t[j] == s[j] && t[Parent(j)] == s[Parent(j)];
    }
    SiftUpRestoresHeap(cmp, t, |s|);
  }

  /** After the last element fills slot `i` of a heap, the only possible fault
      is at `i`: upwards when the element is strictly below its new parent,
      downwards otherwise. */
  lemma FilledSlotFault<P(!new)>(cmp: (P, P) -> int, s: seq<P>, t: seq<P>, i: nat)
    requires Comparator(cmp) && IsHeap(cmp, s)
    requires i < |s| && t == Swap(s, i, |s| - 1)[..|s| - 1]
    ensures 0 < i < |t| && cmp(t[i], t[Parent(i)]) < 0 ==> HeapExceptUp(cmp, t, i)
    ensures !(0 < i < |t| && cmp(t[i], t[Parent(i)]) < 0) ==> HeapExceptDown(cmp, t, i)
  {
    assert forall k :: 0 <= k < |t| && k != i ==> t[k] == s[k];
    if 0 < i < |t| {
      forall j | 0 < j < |t| && Parent(j) == i
        ensures cmp(t[Parent(i)], t[j]) <= 0
      {
        Transitive(cmp, s[Parent(i)], s[i], s[j]);
      }
      if cmp(t[i], t[Parent(i)]) < 0 {
        forall j | 0 < j < |t| && Parent(j) == i
          ensures cmp(t[i], t[j]) <= 0
        {
          Transitive(cmp, t[i], s[Parent(i)], s[i]);
          Transitive(cmp, t[i], s[i], s[j]);
        }
      } else {
        NotBelow(cmp, t[i], t[Parent(i)]);
      }
    }
  }

  /** Removing any index from a heap yields a heap. */
  lemma RemovePreservesHeap<P(!new)>(cmp: (P, P) -> int, s: seq<P>, i: int)
    requires Comparator(cmp) && IsHeap(cmp, s)
    ensures Remove(cmp, s, i).Ok? ==> IsHeap(cmp, Remove(cmp, s, i).value)
  {
    if 0 <= i < |s| {
      var t := Swap(s, i, |s| - 1)[..|s| - 1];
      assert Remove(cmp, s, i).value == Reposition(cmp, t, i);
      FilledSlotFault(cmp, s, t, i);
      if 0 < i < |t| && cmp(t[i], t[Parent(i)]) < 0 {
        SiftUpRestoresHeap(cmp, t, i);
      } else {
        SiftDownRestoresHeap(cmp, t, i);
      }
    }
  }

  /** In a heap the root is at most every element. */
  lemma {:induction false} RootIsAtMostAll<P(!new)>(cmp: (P, P) -> int, s: seq<P>, k: nat)
    requires Comparator(cmp) && IsHeap(cmp, s) && k < |s|
    ensures cmp(s[0], s[k]) <= 0
    decreases k
  {
    if k == 0 {
      Reflexive(cmp, s[0]);
    } else {
      RootIsAtMostAll(cmp, s, Parent(k));
      Transitive(cmp, s[0], s[Parent(k)], s[k]);
    }
  }

  /** The element `GetPriority` returns is a minimum of the heap. */
  lemma GetPriorityIsMinimum<P(!new)>(cmp: (P, P) -> int, s: seq<P>)
    requires Comparator(cmp) && IsHeap(cmp, s)
    ensures GetPriority(s).Ok? ==> GetPriority(s).value in s
    ensures GetPriority(s).Ok? ==> forall x :: x in s ==> cmp(GetPriority(s).value, x) <= 0
  {
    forall x | x in s
      ensures cmp(s[0], x) <= 0
    {
      var k :| 0 <= k < |s| && s[k] == x;
      RootIsAtMostAll(cmp, s, k);
    }
  }

  /** Any sequence of calls, starting from a heap, leaves a heap. */
  lemma {:induction false} RunPreservesHeap<P(!new)>(cmp: (P, P) -> int, s: seq<P>, ops: seq<Op<P>>)
    requires Comparator(cmp) && IsHeap(cmp, s)
    ensures IsHeap(cmp, Run(cmp, s, ops))
    decreases |ops|
  {
    if |ops| > 0 {
      match ops[0] {
        case InsertOp(p) => InsertPreservesHeap(cmp, s, p);
        case RemoveOp(i) => RemovePreservesHeap(cmp, s, i);
      }
      RunPreservesHeap(cmp, Apply(cmp, s, ops[0]), ops[1..]);
    }
  }
}
