/**
 * Index arithmetic of the implicit tree: the consensus node list is read as
 * the breadth-first array layout of a complete `width`-ary tree whose root
 * sits at position 0.
 *
 * Positions are modelled as unbounded integers. Every position the selection
 * code computes lies between -1 and max(1, (|list| + childOffset) * width),
 * so the 64-bit `ssize_t` arithmetic of the original never wraps for any
 * realistic list.
 */
module TreeIndex {

  /** Signed integer division as C++ performs it: the quotient is truncated toward zero. */
  function TruncDiv(a: int, b: int): (q: int)
    requires b > 0
    ensures a >= 0 ==> 0 <= q && q * b <= a < q * b + b
    ensures a < 0 ==> q <= 0 && q * b - b < a <= q * b
  {
    if a >= 0 then
      FloorDivBounds(a, b);
      a / b
    else
      FloorDivBounds(-a, b);
      NegMul((-a) / b, b);
      -((-a) / b)
  }

  lemma FloorDivBounds(a: int, b: int)
    requires a >= 0 && b > 0
    ensures 0 <= a / b && (a / b) * b <= a < (a / b) * b + b
  {
    var q, r := a / b, a % b;
    assert a == q * b + r && 0 <= r < b;
  }

  lemma NegMul(m: int, b: int)
    ensures (-m) * b == -(m * b)
  {
  }

  /** Position of the child in slot `slot` (0-based) of the node at `parent`. */
  function ChildIndex(parent: int, slot: int, width: int): (c: int)
    ensures parent >= 0 && width >= 1 && slot >= 0 ==> c > parent
  {
    parent * width + slot + 1
  }

  /**
   * Position of the parent of the node at `index`. A non-root position's
   * parent lies strictly before it; the root is its own parent, except for
   * width 1, where truncating (0 - 1) / 1 gives -1.
   */
  function ParentIndex(index: int, width: int): (p: int)
    requires width >= 1
    ensures index >= 1 ==> 0 <= p < index
    ensures index == 0 ==> p == (if width == 1 then -1 else 0)
  {
    var p := TruncDiv(index - 1, width);
    if index >= 1 then
      MulAtLeastSelf(p, width);
      p
    else if index == 0 then
      RootQuotient(width);
      p
    else
      p
  }

  lemma MulAtLeastSelf(q: int, width: int)
    requires q >= 0 && width >= 1
    ensures q <= q * width
  {
  }

  /** Truncating -1 / width: -1 for width 1, 0 otherwise. */
  lemma RootQuotient(width: int)
    requires width >= 1
    ensures TruncDiv(-1, width) == (if width == 1 then -1 else 0)
  {
    FloorDivBounds(1, width);
    if width > 1 {
      assert 1 / width == 0;
    }
  }

  /** `a` is a proper ancestor of `n`: reached from `n` by one or more parent steps. */
  predicate IsAncestor(a: int, n: int, width: int)
    requires width >= 1
    decreases n
  {
    n > 0 && (ParentIndex(n, width) == a || IsAncestor(a, ParentIndex(n, width), width))
  }

  /** Going to a child and back to its parent returns to the start. */
  lemma ParentOfChild(p: int, slot: int, width: int)
    requires p >= 0 && width >= 1 && 0 <= slot < width
    ensures ChildIndex(p, slot, width) > p
    ensures ParentIndex(ChildIndex(p, slot, width), width) == p
  {
    var c := ChildIndex(p, slot, width);
    var q := ParentIndex(c, width);
    assert c - 1 == p * width + slot;
    // q * width <= p * width + slot < q * width + width
    assert (q - p) * width <= slot < width by {
      assert q * width - p * width == (q - p) * width;
    }
    assert (p - q) * width < width - slot <= width by {
      assert p * width - q * width == (p - q) * width;
    }
    if q > p {
      MulAtLeast(q - p, width);
      assert false;
    } else if q < p {
      MulAtLeast(p - q, width);
      assert false;
    }
  }

  /** Every non-root position is the child of its parent in slot (index - 1) % width. */
  lemma ChildOfParent(index: int, width: int)
    requires index >= 1 && width >= 1
    ensures 0 <= (index - 1) % width < width
    ensures ChildIndex(ParentIndex(index, width), (index - 1) % width, width) == index
  {
    var q := ParentIndex(index, width);
    assert q == (index - 1) / width;
  }

  /** Distinct (parent, slot) pairs name distinct children: no position is shared. */
  lemma ChildIndexInjective(p1: int, s1: int, p2: int, s2: int, width: int)
    requires p1 >= 0 && p2 >= 0 && width >= 1 && 0 <= s1 < width && 0 <= s2 < width
    requires ChildIndex(p1, s1, width) == ChildIndex(p2, s2, width)
    ensures p1 == p2 && s1 == s2
  {
    ParentOfChild(p1, s1, width);
    ParentOfChild(p2, s2, width);
  }

  /** Every ancestor lies before its descendant, and is a valid position. */
  lemma {:induction false} AncestorBefore(a: int, n: int, width: int)
    requires width >= 1 && IsAncestor(a, n, width)
    ensures 0 <= a < n
  {
    var q := ParentIndex(n, width);
    if q != a {
      AncestorBefore(a, q, width);
    }
  }

  /** Being an ancestor is transitive. */
  lemma {:induction false} AncestorTransitive(a: int, b: int, n: int, width: int)
    requires width >= 1 && IsAncestor(a, b, width) && IsAncestor(b, n, width)
    ensures IsAncestor(a, n, width)
  {
    var q := ParentIndex(n, width);
    if q != b {
      AncestorTransitive(a, b, q, width);
    }
  }

  /**
   * The tree spans the whole list: the root is an ancestor of every other
   * position, so every position is reached from the root by child steps
   * (see ChildOfParent) and reaches the root by parent steps.
   */
  lemma {:induction false} RootIsAncestorOfAll(n: int, width: int)
    requires n >= 1 && width >= 1
    ensures IsAncestor(0, n, width)
  {
    var q := ParentIndex(n, width);
    if q != 0 {
      RootIsAncestorOfAll(q, width);
    }
  }

  lemma MulAtLeast(k: int, width: int)
    requires k >= 1 && width >= 1
    ensures k * width >= width
  {
  }
}
