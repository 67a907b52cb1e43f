/** MinHeapify's two descending passes of Fix do not always produce a heap.
    This module exhibits a list of 66 elements on which they leave a child
    smaller than its parent, so that Verify() answers false right after
    FromList. The lists used are made of zeros and ones, and the proof
    follows only the positions of the zeros. */
module HeapFindings {
  import opened HeapIndex
  import opened HeapSpec
  import opened MinHeap

  // ---------------------------------------------------------------------
  // The repair as written: a list it leaves out of order.
  // ---------------------------------------------------------------------

  /** The list of n elements holding 0 at the positions in zeros and 1
      elsewhere. */
  function ZeroOne(n: nat, zeros: set<nat>): (s: seq<int>)
    ensures |s| == n
  {
    seq(n, k => if k in zeros then 0 else 1)
  }

  /** Fix's exchange on such a list moves a 0 from i to p. */
  lemma SwapZeroOne(n: nat, zeros: set<nat>, i: nat, p: nat)
    requires i < n && p < n && i in zeros && p !in zeros
    ensures Swap(ZeroOne(n, zeros), i, p) == ZeroOne(n, zeros - {i} + {p})
  {
  }

  /** The positions whose element is strictly smaller than its parent's:
      a 0 below a 1. */
  predicate Misplaced(zeros: set<nat>, k: nat)
  {
    k >= 1 && k in zeros && Parent(k) !in zeros
  }

  /** The positions of the zeros after Fix(i), computed on the set. */
  function FixZeros(zeros: set<nat>, i: nat): (r: set<nat>)
    decreases i
  {
    if i == 0 then zeros
    else
      var p := Parent(i);
      var after := if Misplaced(zeros, i) then zeros - {i} + {p} else zeros;
      if p > 0 then FixZeros(after, p) else after
  }

  /** Fix on a list of zeros and ones is FixZeros on its set of zeros. */
  lemma {:induction false} FixedZeroOne(n: nat, zeros: set<nat>, i: nat)
    requires 1 <= i < n
    ensures Fixed(ZeroOne(n, zeros), i) == ZeroOne(n, FixZeros(zeros, i))
    decreases i
  {
    var p := Parent(i);
    if Misplaced(zeros, i) {
      var after := zeros - {i} + {p};
      SwapZeroOne(n, zeros, i, p);
      if p > 0 {
        FixedZeroOne(n, after, p);
      }
    } else if p > 0 {
      FixedZeroOne(n, zeros, p);
    }
  }

  /** The zeros after the inner loop of MinHeapify started at k - 1. */
  function PassZeros(zeros: set<nat>, k: nat): (r: set<nat>)
    decreases k
  {
    if k <= 1 then zeros else PassZeros(FixZeros(zeros, k - 1), k - 1)
  }

  /** A descending pass on a list of zeros and ones is PassZeros. */
  lemma {:induction false} PassBelowZeroOne(n: nat, zeros: set<nat>, k: nat)
    requires k <= n
    ensures PassBelow(ZeroOne(n, zeros), k) == ZeroOne(n, PassZeros(zeros, k))
    decreases k
  {
    if k > 1 {
      FixedZeroOne(n, zeros, k - 1);
      PassBelowZeroOne(n, FixZeros(zeros, k - 1), k - 1);
    }
  }

  /** MinHeapify on a list of zeros and ones: two PassZeros over all of it. */
  lemma RepairedZeroOne(n: nat, zeros: set<nat>)
    ensures Repaired(ZeroOne(n, zeros)) == ZeroOne(n, PassZeros(PassZeros(zeros, n), n))
  {
    PassBelowZeroOne(n, zeros, n);
    var once := PassZeros(zeros, n);
    PassBelowZeroOne(n, once, n);
    assert Passes(ZeroOne(n, zeros), 1) == ZeroOne(n, once);
  }

  /** One step of FixZeros below the root's children that leaves the zeros
      where they are. */
  lemma ZerosStay(zeros: set<nat>, i: nat, p: nat)
    requires i >= 1 && p == Parent(i) && p > 0 && !Misplaced(zeros, i)
    ensures FixZeros(zeros, i) == FixZeros(zeros, p)
  {
  }

  /** One step of FixZeros below the root's children that moves the zero at
      i up to its parent p. */
  lemma ZerosMove(zeros: set<nat>, after: set<nat>, i: nat, p: nat)
    requires i >= 1 && p == Parent(i) && p > 0 && Misplaced(zeros, i)
    requires after == zeros - {i} + {p}
    ensures FixZeros(zeros, i) == FixZeros(after, p)
  {
  }

  /** The last step of FixZeros, at a child of the root, leaving the zeros
      where they are. */
  lemma ZerosStayAtTop(zeros: set<nat>, i: nat)
    requires i >= 1 && Parent(i) == 0 && !Misplaced(zeros, i)
    ensures FixZeros(zeros, i) == zeros
  {
  }

  /** The last step of FixZeros, at a child of the root, moving its zero to
      the root. */
  lemma ZerosMoveToTop(zeros: set<nat>, after: set<nat>, i: nat)
    requires i >= 1 && Parent(i) == 0 && Misplaced(zeros, i)
    requires after == zeros - {i} + {0}
    ensures FixZeros(zeros, i) == after
  {
  }

  /** Fix(i) moves nothing when no position on its path is misplaced. */
  lemma {:induction false} FixZerosNoOp(zeros: set<nat>, i: nat)
    requires forall k: nat :: OnPath(k, i) ==> !Misplaced(zeros, k)
    ensures FixZeros(zeros, i) == zeros
    decreases i
  {
    if i > 0 {
      var p := Parent(i);
      if p > 0 {
        forall k: nat | OnPath(k, p)
          ensures !Misplaced(zeros, k)
        {
          assert OnPath(k, i);
        }
        FixZerosNoOp(zeros, p);
      }
    }
  }

  /** The calls Fix(k - 1) down to Fix(m) move nothing when no misplaced
      position lies on the path of any of those indices. */
  lemma {:induction false} PassZerosSkip(zeros: set<nat>, m: nat, k: nat)
    requires 1 <= m <= k
    requires forall i, b: nat :: m <= i < k && Misplaced(zeros, b) ==> !OnPath(b, i)
    ensures PassZeros(zeros, k) == PassZeros(zeros, m)
    decreases k
  {
    if k > m {
      FixZerosNoOp(zeros, k - 1);
      PassZerosSkip(zeros, m, k - 1);
    }
  }

  /** One iteration of the inner loop, Fix(i) with i = k - 1, taking the
      zeros to after. */
  lemma PassZerosStep(zeros: set<nat>, after: set<nat>, k: nat, i: nat)
    requires k >= 2 && i == k - 1 && FixZeros(zeros, i) == after
    ensures PassZeros(zeros, k) == PassZeros(after, i)
  {
  }

  // ---------------------------------------------------------------------
  // The witness and its trace through the two passes. Of the 130 Fix
  // calls only Fix(65), Fix(64), Fix(63) and Fix(32) of the first pass
  // and Fix(65) of the second move anything.
  // ---------------------------------------------------------------------

  /** 66 elements, all 1 except 0 at positions 1, 15, 31, 32, 63 and 65. */
  const WitnessSize: nat := 66
  const WitnessZeros: set<nat> := {1, 15, 31, 32, 63, 65}

  // The zeros after each Fix call that moves something, and in between.
  const First65a: set<nat> := {1, 7, 31, 32, 63, 65}
  const First65b: set<nat> := {1, 3, 31, 32, 63, 65}
  const AfterFirst65: set<nat> := {0, 3, 31, 32, 63, 65}
  const First64a: set<nat> := {0, 3, 15, 32, 63, 65}
  const First64b: set<nat> := {0, 3, 7, 32, 63, 65}
  const AfterFirst64: set<nat> := {0, 1, 7, 32, 63, 65}
  const First63a: set<nat> := {0, 1, 7, 31, 32, 65}
  const First63b: set<nat> := {0, 1, 7, 15, 32, 65}
  const AfterFirst63: set<nat> := {0, 1, 3, 15, 32, 65}
  const AfterFirst32: set<nat> := {0, 1, 3, 7, 32, 65}
  const AfterSecond65: set<nat> := {0, 1, 3, 7, 15, 65}

  /** First pass, Fix(65): the zero at 15 climbs to 3 and the one at 1 to
      the root. */
  lemma WitnessFirst65()
    ensures FixZeros(WitnessZeros, 65) == AfterFirst65
  {
    ZerosStay(WitnessZeros, 65, 32);
    ZerosStay(WitnessZeros, 32, 15);
    WitnessFirst65Up();
  }

  lemma WitnessFirst65Up()
    ensures FixZeros(WitnessZeros, 15) == AfterFirst65
  {
    ZerosMove(WitnessZeros, First65a, 15, 7);
    ZerosMove(First65a, First65b, 7, 3);
    ZerosStay(First65b, 3, 1);
    ZerosMoveToTop(First65b, AfterFirst65, 1);
  }

  /** First pass, Fix(64): the zero at 31 climbs to 7, and the one at 3
      moves to 1. */
  lemma WitnessFirst64()
    ensures FixZeros(AfterFirst65, 64) == AfterFirst64
  {
    ZerosStay(AfterFirst65, 64, 31);
    WitnessFirst64From31();
  }

  lemma WitnessFirst64From31()
    ensures FixZeros(AfterFirst65, 31) == AfterFirst64
  {
    ZerosMove(AfterFirst65, First64a, 31, 15);
    WitnessFirst64Up();
  }

  lemma WitnessFirst64Up()
    ensures FixZeros(First64a, 15) == AfterFirst64
  {
    ZerosMove(First64a, First64b, 15, 7);
    ZerosStay(First64b, 7, 3);
    ZerosMove(First64b, AfterFirst64, 3, 1);
    ZerosStayAtTop(AfterFirst64, 1);
  }

  /** First pass, Fix(63): the zero at 63 climbs to 15, and the one at 7
      moves to 3. */
  lemma WitnessFirst63()
    ensures FixZeros(AfterFirst64, 63) == AfterFirst63
  {
    ZerosMove(AfterFirst64, First63a, 63, 31);
    ZerosMove(First63a, First63b, 31, 15);
    WitnessFirst63Up();
  }

  lemma WitnessFirst63Up()
    ensures FixZeros(First63b, 15) == AfterFirst63
  {
    ZerosStay(First63b, 15, 7);
    ZerosMove(First63b, AfterFirst63, 7, 3);
    ZerosStay(AfterFirst63, 3, 1);
    ZerosStayAtTop(AfterFirst63, 1);
  }

  /** First pass, Fix(32): the zero at 15 moves to 7, leaving the zero at 32
      under a one. */
  lemma WitnessFirst32()
    ensures FixZeros(AfterFirst63, 32) == AfterFirst32
  {
    ZerosStay(AfterFirst63, 32, 15);
    ZerosMove(AfterFirst63, AfterFirst32, 15, 7);
    ZerosStay(AfterFirst32, 7, 3);
    ZerosStay(AfterFirst32, 3, 1);
    ZerosStayAtTop(AfterFirst32, 1);
  }

  /** Second pass, Fix(65): the zero at 32 moves to 15, leaving the zero at
      65 under a one. */
  lemma WitnessSecond65()
    ensures FixZeros(AfterFirst32, 65) == AfterSecond65
  {
    ZerosStay(AfterFirst32, 65, 32);
    ZerosMove(AfterFirst32, AfterSecond65, 32, 15);
    ZerosStay(AfterSecond65, 15, 7);
    ZerosStay(AfterSecond65, 7, 3);
    ZerosStay(AfterSecond65, 3, 1);
    ZerosStayAtTop(AfterSecond65, 1);
  }

  /** Fix(62) down to Fix(33) in the first pass lie outside the subtree of
      15, the only misplaced position after Fix(63). */
  lemma WitnessFirstSkipHigh()
    ensures PassZeros(AfterFirst63, 63) == PassZeros(AfterFirst63, 33)
  {
    forall i, b: nat | 33 <= i < 63 && Misplaced(AfterFirst63, b)
      ensures !OnPath(b, i)
    {
      assert b == 15;
      assert 16 <= Parent(i) <= 30 && Parent(Parent(i)) < 15;
    }
    PassZerosSkip(AfterFirst63, 33, 63);
  }

  /** Fix(31) down to Fix(1) in the first pass lie above 32, the only
      misplaced position after Fix(32). */
  lemma WitnessFirstSkipLow()
    ensures PassZeros(AfterFirst32, 32) == AfterFirst32
  {
    forall i, b: nat | 1 <= i < 32 && Misplaced(AfterFirst32, b)
      ensures !OnPath(b, i)
    {
      assert b == 32;
    }
    PassZerosSkip(AfterFirst32, 1, 32);
  }

  /** Fix(64) down to Fix(1) in the second pass lie above 65, the only
      misplaced position after Fix(65). */
  lemma WitnessSecondSkip()
    ensures PassZeros(AfterSecond65, 65) == AfterSecond65
  {
    forall i, b: nat | 1 <= i < 65 && Misplaced(AfterSecond65, b)
      ensures !OnPath(b, i)
    {
      assert b == 65;
    }
    PassZerosSkip(AfterSecond65, 1, 65);
  }

  /** The first pass: only Fix(65), Fix(64), Fix(63) and Fix(32) move
      anything. */
  lemma WitnessFirstPass()
    ensures PassZeros(WitnessZeros, WitnessSize) == AfterFirst32
  {
    WitnessFirst65();
    PassZerosStep(WitnessZeros, AfterFirst65, 66, 65);
    WitnessFirst64();
    PassZerosStep(AfterFirst65, AfterFirst64, 65, 64);
    WitnessFirst63();
    PassZerosStep(AfterFirst64, AfterFirst63, 64, 63);
    WitnessFirstSkipHigh();
    WitnessFirst32();
    PassZerosStep(AfterFirst63, AfterFirst32, 33, 32);
    WitnessFirstSkipLow();
  }

  /** The second pass: only Fix(65) moves anything. */
  lemma WitnessSecondPass()
    ensures PassZeros(AfterFirst32, WitnessSize) == AfterSecond65
  {
    WitnessSecond65();
    PassZerosStep(AfterFirst32, AfterSecond65, 66, 65);
    WitnessSecondSkip();
  }

  /** Both passes on the witness's zeros. */
  lemma WitnessPasses()
    ensures PassZeros(PassZeros(WitnessZeros, WitnessSize), WitnessSize) == AfterSecond65
  {
    WitnessFirstPass();
    WitnessSecondPass();
  }

  /** The passes leave the zero at 65 below a one. */
  lemma WitnessEndsMisplaced()
    ensures Misplaced(AfterSecond65, 65)
  {
  }

  /** A list of zeros and ones with a zero below a one is not a heap. */
  lemma MisplacedIsNotHeap(n: nat, zeros: set<nat>, c: nat)
    requires c < n && Misplaced(zeros, c)
    ensures ZeroOne(n, zeros)[c] < ZeroOne(n, zeros)[Parent(c)]
    ensures !IsHeap(ZeroOne(n, zeros))
  {
  }

  /** When the two passes leave a zero below a one, MinHeapify's result is
      not a heap. */
  lemma NotHeapAfterRepair(n: nat, zeros: set<nat>, final: set<nat>, c: nat)
    requires PassZeros(PassZeros(zeros, n), n) == final
    requires c < n && Misplaced(final, c)
    ensures Repaired(ZeroOne(n, zeros))[c] < Repaired(ZeroOne(n, zeros))[Parent(c)]
    ensures !IsHeap(Repaired(ZeroOne(n, zeros)))
  {
    RepairedZeroOne(n, zeros);
    MisplacedIsNotHeap(n, final, c);
  }

  /** The list the two passes fail on. */
  const Witness: seq<int> := ZeroOne(WitnessSize, WitnessZeros)

  /** MinHeapify as written does not always produce a heap: on the witness
      it leaves 0 at position 65 below 1 at its parent, 32 (the minimum is
      at the root, as always). */
  lemma TwoPassesCanMissHeap()
    ensures !IsHeap(Repaired(Witness))
  {
    WitnessPasses();
    WitnessEndsMisplaced();
    NotHeapAfterRepair(WitnessSize, WitnessZeros, AfterSecond65, 65);
  }

  /** Build a heap with FromList and ask Verify() about it: the answer is
      whether the two passes produced a heap. */
  method BuildAndVerify(initList: seq<int>) returns (ok: bool)
    ensures ok <==> IsHeap(Repaired(initList))
  {
    var heap := Heap.FromList(initList);
    ok := heap.Verify();
  }

  /** A heap built by FromList from the witness fails its own Verify(). */
  method WitnessFailsVerify() returns (ok: bool)
    ensures !ok
  {
    ok := BuildAndVerify(Witness);
    TwoPassesCanMissHeap();
  }
}
