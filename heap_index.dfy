/** Index geometry of the array-backed binary heap: positions are plain
    indices into the list, index 0 is the root, and a node's children and
    parent are computed, never stored (Program.cs, GetLeft, GetRight and
    GetParentIndex). */
module HeapIndex {

  /** GetParentIndex: ((index + 1) / 2) - 1. The root has no parent and the
      formula gives -1 there; every other index has a parent strictly below
      it, of which it is the left or the right child. */
  function Parent(i: nat): (r: int)
    ensures i == 0 ==> r == -1
    ensures i >= 1 ==> 0 <= r < i && (i == 2 * r + 1 || i == 2 * r + 2)
  {
    (i + 1) / 2 - 1
  }

  /** GetLeft: (2 * (index + 1)) - 1, the first child, whose parent is i. */
  function Left(i: nat): (r: nat)
    ensures i < r && Parent(r) == i
  {
    2 * (i + 1) - 1
  }

  /** GetRight: 2 * (index + 1), the second child, next to the first. */
  function Right(i: nat): (r: nat)
    ensures r == Left(i) + 1 && Parent(r) == i
  {
    2 * (i + 1)
  }

  /** Every non-root index is the left or the right child of its parent:
      Parent's own contract, said in terms of Left and Right, which is the
      form the subtree reasoning about Verify needs. */
  lemma ChildOfParent(i: nat)
    requires i >= 1
    ensures i == Left(Parent(i)) || i == Right(Parent(i))
  {
  }

  /** k is i itself or one of i's ancestors: the positions Fix(i) walks
      through on its way up to the root. */
  predicate OnPath(k: nat, i: nat): (b: bool)
    ensures b ==> k <= i
    decreases i
  {
    k == i || (i > 0 && OnPath(k, Parent(i)))
  }

  /** The root lies on the path of every index. */
  lemma {:induction false} RootOnPath(i: nat)
    ensures OnPath(0, i)
    decreases i
  {
    if i > 0 {
      RootOnPath(Parent(i));
    }
  }

  /** Ancestry is transitive. */
  lemma {:induction false} OnPathTrans(a: nat, b: nat, c: nat)
    requires OnPath(a, b) && OnPath(b, c)
    ensures OnPath(a, c)
    decreases c
  {
    if b != c {
      OnPathTrans(a, b, Parent(c));
    }
  }

  /** Below a node i, the subtree splits into the subtrees of its two
      children: a strict descendant of i descends from Left(i) or Right(i),
      and conversely. This is the shape of Verify's recursion. */
  lemma {:induction false} SubtreeSplit(i: nat, c: nat)
    ensures (OnPath(i, c) && c != i) <==> (OnPath(Left(i), c) || OnPath(Right(i), c))
    decreases c
  {
    if OnPath(i, c) && c != i {
      ChildOfParent(c);
      if Parent(c) != i {
        SubtreeSplit(i, Parent(c));
      }
    }
    if OnPath(Left(i), c) {
      OnPathTrans(i, Left(i), c);
    }
    if OnPath(Right(i), c) {
      OnPathTrans(i, Right(i), c);
    }
  }
}
