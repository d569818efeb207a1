/** Index arithmetic that lays a complete binary tree out in a 0-based array:
    the root is at 0, the children of node `i` are at `2i+1` and `2i+2`. */
module HeapIndex {

  /** Left child of node `i`, as the removal loop computes it. */
  function Left(i: nat): (c: nat)
    ensures c > i && c > 0
    ensures Parent(c) == i
  {
    2 * i + 1
  }

  /** Right child of node `i`, as the removal loop computes it. */
  function Right(i: nat): (c: nat)
    ensures c > i + 1 && c > 0
    ensures Parent(c) == i
  {
    2 * i + 2
  }

  /** Parent of a non-root node, chosen as the insertion loop chooses it:
      an even index is a right child, an odd index a left child. */
  function Parent(i: nat): (p: nat)
    requires i > 0
    ensures p < i
    ensures p == (i - 1) / 2
    ensures i == 2 * p + 1 || i == 2 * p + 2
  {
    if i % 2 == 0 then i / 2 - 1 else i / 2
  }
}
