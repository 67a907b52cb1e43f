/** The heap's repair algorithm as functions on the list's contents: what
    Fix(i) and MinHeapify leave in the list (Program.cs, Fix and
    MinHeapify), what Verify answers, and the facts the rest of the model
    relies on: every step is a permutation, one descending pass already
    brings the minimum to the root, and the repair leaves a valid heap as it
    is. */
module HeapSpec {
  import opened HeapIndex

  /** Every child below position n is no smaller than its parent. */
  predicate HeapUpTo(s: seq<int>, n: nat)
    requires n <= |s|
  {
    forall c {:trigger s[Parent(c)]} :: 1 <= c < n ==> s[Parent(c)] <= s[c]
  }

  /** The min-heap invariant: every child is no smaller than its parent. */
  predicate IsHeap(s: seq<int>)
  {
    HeapUpTo(s, |s|)
  }

  /** The element at index 0 is no larger than any element. */
  predicate RootIsMin(s: seq<int>)
  {
    forall k :: 0 <= k < |s| ==> s[0] <= s[k]
  }

  /** In a heap every element is no smaller than each of its ancestors. */
  lemma {:induction false} HeapAncestorsAreSmaller(s: seq<int>, a: nat, c: nat)
    requires IsHeap(s) && c < |s| && OnPath(a, c)
    ensures s[a] <= s[c]
    decreases c
  {
    if a != c {
      HeapAncestorsAreSmaller(s, a, Parent(c));
    }
  }

  /** A heap keeps its minimum at the root. */
  lemma HeapRootIsMin(s: seq<int>)
    requires IsHeap(s)
    ensures RootIsMin(s)
  {
    forall k | 0 <= k < |s|
      ensures s[0] <= s[k]
    {
      RootOnPath(k);
      HeapAncestorsAreSmaller(s, 0, k);
    }
  }

  /** With at most three elements every non-root node is a child of the
      root, so a minimum at the root is the whole heap invariant. */
  lemma SmallRootMinIsHeap(s: seq<int>)
    requires |s| <= 3 && RootIsMin(s)
    ensures IsHeap(s)
  {
    forall c | 1 <= c < |s|
      ensures s[Parent(c)] <= s[c]
    {
      assert Parent(c) == 0;
    }
  }

  /** s with the elements at i and j exchanged: the tuple assignment of Fix. */
  function Swap(s: seq<int>, i: nat, j: nat): (r: seq<int>)
    requires i < |s| && j < |s|
    ensures |r| == |s| && r[i] == s[j] && r[j] == s[i]
    ensures forall k :: 0 <= k < |s| && k != i && k != j ==> r[k] == s[k]
    ensures multiset(r) == multiset(s)
  {
    s[i := s[j]][j := s[i]]
  }

  /** The smallest element on the path from i up to the root. */
  function PathMin(s: seq<int>, i: nat): (m: int)
    requires i < |s|
    ensures forall k: nat :: OnPath(k, i) ==> m <= s[k]
    ensures exists k: nat :: OnPath(k, i) && m == s[k]
    decreases i
  {
    if i == 0 then s[0]
    else
      var up := PathMin(s, Parent(i));
      if s[i] < up then s[i] else up
  }

  /** PathMin reads only the positions on the path. */
  lemma {:induction false} PathMinFrame(s: seq<int>, t: seq<int>, i: nat)
    requires i < |s| == |t|
    requires forall k: nat :: OnPath(k, i) ==> s[k] == t[k]
    ensures PathMin(s, i) == PathMin(t, i)
    decreases i
  {
    if i > 0 {
      PathMinFrame(s, t, Parent(i));
    }
  }

  /** The list after Fix(i): if the element at i is strictly smaller than
      its parent's, the two are swapped; then, while the parent is not the
      root, the same is done from the parent. The comparison is made
      whether or not a swap happened, so the walk always reaches the root.
      The contents stay a permutation. */
  function Fixed(s: seq<int>, i: nat): (r: seq<int>)
    requires 1 <= i < |s|
    ensures |r| == |s| && multiset(r) == multiset(s)
    decreases i
  {
    var p := Parent(i);
    var t := if s[i] < s[p] then Swap(s, i, p) else s;
    if p > 0 then Fixed(t, p) else t
  }

  /** Fix(i) changes only positions on the path from i to the root, and
      the root ends no larger than what was at the root or at i, and no
      larger than what is now at i. */
  lemma {:induction false} FixedFrame(s: seq<int>, i: nat)
    requires 1 <= i < |s|
    ensures forall k :: 0 <= k < |s| && !OnPath(k, i) ==> Fixed(s, i)[k] == s[k]
    ensures Fixed(s, i)[0] <= s[0] && Fixed(s, i)[0] <= s[i] && Fixed(s, i)[0] <= Fixed(s, i)[i]
    decreases i
  {
    var p := Parent(i);
    var t := if s[i] < s[p] then Swap(s, i, p) else s;
    if p > 0 {
      FixedFrame(t, p);
      assert !OnPath(i, p);
    }
  }

  /** Fix(i) leaves a position off the path from i to the root as it was:
      FixedFrame's frame for one position, so that a proof about one
      position does not have to instantiate the whole quantified frame. */
  lemma {:induction false} FixedOffPath(s: seq<int>, i: nat, m: nat)
    requires 1 <= i < |s| && m < |s| && !OnPath(m, i)
    ensures Fixed(s, i)[m] == s[m]
    decreases i
  {
    var p := Parent(i);
    var t := if s[i] < s[p] then Swap(s, i, p) else s;
    if p > 0 {
      FixedOffPath(t, p, m);
    }
  }

  /** Fix(i) bubbles the smallest element of the path from i to the root
      all the way up to the root. */
  lemma {:induction false} FixedRootIsPathMin(s: seq<int>, i: nat)
    requires 1 <= i < |s|
    ensures Fixed(s, i)[0] == PathMin(s, i)
    decreases i
  {
    var p := Parent(i);
    var t := if s[i] < s[p] then Swap(s, i, p) else s;
    assert t[p] == (if s[i] < s[p] then s[i] else s[p]);
    if p > 0 {
      FixedRootIsPathMin(t, p);
      var pp := Parent(p);
      PathMinFrame(s, t, pp);
      var above := PathMin(s, pp);
      assert PathMin(t, p) == (if t[p] < above then t[p] else above);
      assert PathMin(s, p) == (if s[p] < above then s[p] else above);
    }
  }

  /** Where every parent on the path is already no larger than its child,
      Fix(i) swaps nothing. */
  lemma {:induction false} FixedOnOrderedPrefix(s: seq<int>, n: nat, i: nat)
    requires 1 <= i < n <= |s| && HeapUpTo(s, n)
    ensures Fixed(s, i) == s
    decreases i
  {
    var p := Parent(i);
    if p > 0 {
      FixedOnOrderedPrefix(s, n, p);
    }
  }

  /** The first n positions form a heap except that the element at c may be
      smaller than its parent; c's parent is still no larger than c's
      children. This is what holds while an element bubbles up. */
  predicate HeapUpToExcept(s: seq<int>, n: nat, c: nat)
    requires n <= |s| && c < n
  {
    (forall m {:trigger s[Parent(m)]} :: 1 <= m < n && m != c ==> s[Parent(m)] <= s[m]) &&
    (c >= 1 ==> forall m :: 1 <= m < n && Parent(m) == c ==> s[Parent(c)] <= s[m])
  }

  /** Bubbling up the one misplaced element restores the heap on the first
      n positions: Fix(c) is a correct sift-up. */
  lemma {:induction false} SiftUp(s: seq<int>, n: nat, c: nat)
    requires 1 <= c < n <= |s| && HeapUpToExcept(s, n, c)
    ensures HeapUpTo(Fixed(s, c), n)
    decreases c
  {
    var p := Parent(c);
    if s[c] < s[p] {
      var t := Swap(s, c, p);
      assert t[p] < t[c];
      if p > 0 {
        assert HeapUpToExcept(t, n, p) by {
          forall m | 1 <= m < n && m != p
            ensures t[Parent(m)] <= t[m]
          {
            if m == c {
            } else if Parent(m) == c {
              assert t[Parent(m)] == s[p];
            } else if Parent(m) == p {
              assert t[Parent(m)] == s[c] && t[m] == s[m];
            } else {
              assert t[Parent(m)] == s[Parent(m)] && t[m] == s[m];
            }
          }
          forall m | 1 <= m < n && Parent(m) == p
            ensures t[Parent(p)] <= t[m]
          {
            assert t[Parent(p)] == s[Parent(p)];
            if m == c {
              assert t[m] == s[p];
            } else {
              assert t[m] == s[m];
            }
          }
        }
        SiftUp(t, n, p);
      } else {
        assert HeapUpTo(t, n) by {
          forall m | 1 <= m < n
            ensures t[Parent(m)] <= t[m]
          {
            if m == c {
            } else if Parent(m) == c {
              assert t[Parent(m)] == s[p];
            } else if Parent(m) == p {
              assert t[Parent(m)] == s[c] && t[m] == s[m];
            } else {
              assert t[Parent(m)] == s[Parent(m)] && t[m] == s[m];
            }
          }
        }
      }
    } else {
      assert HeapUpTo(s, n);
      if p > 0 {
        FixedOnOrderedPrefix(s, n, p);
      }
    }
  }

  /** The list after the inner loop of MinHeapify, started at k - 1:
      Fix(k - 1), Fix(k - 2), ..., Fix(1), in that order. */
  function PassBelow(s: seq<int>, k: nat): (r: seq<int>)
    requires k <= |s|
    ensures |r| == |s| && multiset(r) == multiset(s)
    decreases k
  {
    if k <= 1 then s else PassBelow(Fixed(s, k - 1), k - 1)
  }

  /** The minimum reaches the root during a descending pass: once Fix(i)
      has run, positions i and beyond are never touched again, and the
      root, which only ever decreases, is no larger than any of them. */
  lemma {:induction false} PassBelowRootMin(s: seq<int>, k: nat)
    requires k <= |s|
    requires forall m :: k <= m < |s| ==> s[0] <= s[m]
    ensures RootIsMin(PassBelow(s, k))
    decreases k
  {
    if k > 1 {
      var t := Fixed(s, k - 1);
      FixedFrame(s, k - 1);
      forall m | k <= m < |s|
        ensures t[0] <= t[m]
      {
        FixedOffPath(s, k - 1, m);
      }
      PassBelowRootMin(t, k - 1);
    }
  }

  /** A descending pass over a heap swaps nothing. */
  lemma {:induction false} PassBelowOnHeap(s: seq<int>, k: nat)
    requires k <= |s| && IsHeap(s)
    ensures PassBelow(s, k) == s
    decreases k
  {
    if k > 1 {
      FixedOnOrderedPrefix(s, |s|, k - 1);
      PassBelowOnHeap(s, k - 1);
    }
  }

  /** One pass of MinHeapify: Fix(i) for i from Count - 1 down to 1. It
      permutes the list, leaves its minimum at index 0, and has nothing to
      do on a list of at most one element. */
  function Pass(s: seq<int>): (r: seq<int>)
    ensures |r| == |s| && multiset(r) == multiset(s)
    ensures RootIsMin(r)
    ensures |s| <= 1 ==> r == s
  {
    PassBelowRootMin(s, |s|);
    PassBelow(s, |s|)
  }

  /** The list after j passes. */
  function Passes(s: seq<int>, j: nat): (r: seq<int>)
    ensures |r| == |s| && multiset(r) == multiset(s)
    ensures j >= 1 ==> RootIsMin(r)
    ensures |s| <= 1 ==> r == s
  {
    if j == 0 then s else Pass(Passes(s, j - 1))
  }

  /** The number of passes MinHeapify makes. */
  const PassCount: nat := 2

  /** The list after MinHeapify: two whole descending passes. The result is
      a permutation of the input with its minimum at index 0, and a list of
      at most one element is left as it is. */
  function Repaired(s: seq<int>): (r: seq<int>)
    ensures |r| == |s| && multiset(r) == multiset(s)
    ensures RootIsMin(r)
    ensures |s| <= 1 ==> r == s
  {
    Passes(s, PassCount)
  }

  /** MinHeapify leaves a valid heap untouched. */
  lemma {:induction false} RepairedOnHeap(s: seq<int>)
    requires IsHeap(s)
    ensures Repaired(s) == s
  {
    PassBelowOnHeap(s, |s|);
    assert Pass(s) == s;
    assert Passes(s, 1) == s;
  }

  /** An element appended to a heap is the only one that may be out of
      place. */
  lemma AppendedIsOnlyMisplaced(s: seq<int>, x: int)
    requires IsHeap(s) && |s| >= 1
    ensures HeapUpToExcept(s + [x], |s| + 1, |s|)
  {
    var t := s + [x];
    forall m | 1 <= m < |s|
      ensures t[Parent(m)] <= t[m]
    {
      assert t[Parent(m)] == s[Parent(m)] && t[m] == s[m];
    }
  }

  /** A pass starts with Fix(Count - 1). */
  lemma PassFirstStep(t: seq<int>)
    requires |t| >= 2
    ensures Pass(t) == PassBelow(Fixed(t, |t| - 1), |t| - 1)
  {
  }

  /** Insert keeps a valid heap valid: the first Fix of the first pass
      starts at the appended element and bubbles it into place; every
      later Fix then finds nothing to swap. */
  lemma InsertKeepsHeap(s: seq<int>, x: int)
    requires IsHeap(s)
    ensures IsHeap(Repaired(s + [x]))
  {
    var t := s + [x];
    if |s| == 0 {
      assert IsHeap(t);
      RepairedOnHeap(t);
    } else {
      AppendedIsOnlyMisplaced(s, x);
      SiftUp(t, |t|, |s|);
      var u := Fixed(t, |s|);
      assert Pass(t) == u by {
        PassFirstStep(t);
        PassBelowOnHeap(u, |s|);
      }
      assert Pass(u) == u by {
        PassBelowOnHeap(u, |u|);
      }
      assert Passes(t, 1) == u;
      assert Passes(t, 2) == u;
    }
  }

  /** Every element is no larger than every later one. */
  predicate Sorted(s: seq<int>)
  {
    forall i, j :: 0 <= i < j < |s| ==> s[i] <= s[j]
  }

  /** The elements that ExtractMinimum returns, called again and again
      until IsEmpty holds: the element at index 0, then those of the list
      left by dropping index 0 and repairing. Every element is returned
      exactly once. */
  function Drained(s: seq<int>): (r: seq<int>)
    ensures |r| == |s| && multiset(r) == multiset(s)
    decreases |s|
  {
    if |s| == 0 then []
    else
      assert s == [s[0]] + s[1..];
      [s[0]] + Drained(Repaired(s[1..]))
  }

  /** Extraction order: starting from a list whose minimum is at index 0,
      as every operation of the heap leaves it, the elements come out in
      non-decreasing order. */
  lemma {:induction false} DrainedSorted(s: seq<int>)
    requires RootIsMin(s)
    ensures Sorted(Drained(s))
    decreases |s|
  {
    if |s| > 0 {
      var rest := Repaired(s[1..]);
      DrainedSorted(rest);
      var d := Drained(rest);
      assert Drained(s) == [s[0]] + d;
      forall j | 0 <= j < |d|
        ensures s[0] <= d[j]
      {
        assert d[j] in multiset(d);
        assert d[j] in multiset(s[1..]);
        assert d[j] in s[1..];
      }
    }
  }

  /** The elements of the subtree rooted at index each sit no lower in the
      order than their parent. */
  predicate SubtreeOrdered(s: seq<int>, index: nat)
  {
    forall c {:trigger s[Parent(c)]} :: 1 <= c < |s| && OnPath(index, c) && c != index ==> s[Parent(c)] <= s[c]
  }

  /** Verify(index): true for an index past the end; otherwise false when a
      child that exists is strictly smaller than the node, and else the
      conjunction of the two children's answers. */
  function VerifyFrom(s: seq<int>, index: nat): (ok: bool)
    ensures index >= |s| ==> ok
    decreases if index < |s| then |s| - index else 0
  {
    if index >= |s| then true
    else
      var left := Left(index);
      var right := Right(index);
      if left < |s| && s[left] < s[index] then false
      else if right < |s| && s[right] < s[index] then false
      else VerifyFrom(s, left) && VerifyFrom(s, right)
  }

  /** Verify(index) answers whether the subtree rooted at index is ordered. */
  lemma {:induction false} VerifyFromMeaning(s: seq<int>, index: nat)
    ensures VerifyFrom(s, index) <==> SubtreeOrdered(s, index)
    decreases if index < |s| then |s| - index else 0
  {
    if index < |s| {
      var left, right := Left(index), Right(index);
      VerifyFromMeaning(s, left);
      VerifyFromMeaning(s, right);
      forall c | 1 <= c < |s|
        ensures (OnPath(index, c) && c != index) <==> (OnPath(left, c) || OnPath(right, c))
      {
        SubtreeSplit(index, c);
      }
      if SubtreeOrdered(s, index) {
        assert OnPath(index, left) && OnPath(index, right);
      }
    }
  }

  /** Verify() at the root is exactly the min-heap invariant. */
  lemma VerifyRootIsHeap(s: seq<int>)
    ensures VerifyFrom(s, 0) <==> IsHeap(s)
  {
    VerifyFromMeaning(s, 0);
    forall c | 1 <= c < |s|
      ensures OnPath(0, c)
    {
      RootOnPath(c);
    }
  }

  /** Fix(k), Fix(k + 1), ..., Fix(|s| - 1), in that order. */
  function AscendingFrom(s: seq<int>, k: nat): (r: seq<int>)
    requires 1 <= k <= |s|
    ensures |r| == |s| && multiset(r) == multiset(s)
    decreases |s| - k
  {
    if k == |s| then s else AscendingFrom(Fixed(s, k), k + 1)
  }

  /** The corrected MinHeapify: a single pass of Fix from index 1 upwards. */
  function AscendingRepaired(s: seq<int>): (r: seq<int>)
    ensures |r| == |s| && multiset(r) == multiset(s)
  {
    if |s| <= 1 then s else AscendingFrom(s, 1)
  }

  /** When the first k positions already form a heap, Fix(k) extends the
      heap to the first k + 1: the new element is the only one out of
      place, and it has no children yet. */
  lemma ExtendHeapByOne(s: seq<int>, k: nat)
    requires 1 <= k < |s| && HeapUpTo(s, k)
    ensures HeapUpTo(Fixed(s, k), k + 1)
  {
    assert HeapUpToExcept(s, k + 1, k);
    SiftUp(s, k + 1, k);
  }

  /** The ascending pass completes a heap of the first k positions. */
  lemma {:induction false} AscendingFromIsHeap(s: seq<int>, k: nat)
    requires 1 <= k <= |s| && HeapUpTo(s, k)
    ensures IsHeap(AscendingFrom(s, k))
    decreases |s| - k
  {
    if k < |s| {
      ExtendHeapByOne(s, k);
      AscendingFromIsHeap(Fixed(s, k), k + 1);
    }
  }

  /** The corrected repair always yields a heap holding the same elements. */
  lemma AscendingRepairedIsHeap(s: seq<int>)
    ensures IsHeap(AscendingRepaired(s))
  {
    if |s| <= 1 {
      assert IsHeap(s);
    } else {
      AscendingFromIsHeap(s, 1);
    }
  }
}
