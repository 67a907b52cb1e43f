/** The Heap class of Program.cs: a binary min-heap of integers kept in a
    growable list, index 0 being the root. Every mutation ends by running
    the whole repair, MinHeapify. The list is a field the methods reassign;
    each method is proved against the functions of HeapSpec. */
module MinHeap {
  import opened HeapIndex
  import opened HeapSpec

  /** The one failure the heap reports: reading the minimum of an empty
      heap (the list index that is out of range in PeekMinimum). */
  datatype Error = EmptyContainer

  datatype Result<T> = Ok(value: T) | Err(error: Error)

  class Heap {
    /** The backing list; the root is at index 0 and the children of index i
        are at Left(i) and Right(i). */
    var list: seq<int>

    /** What every operation leaves behind: the smallest element at index 0. */
    ghost predicate Valid()
      reads this
    {
      RootIsMin(list)
    }

    /** new Heap(): an empty heap. */
    constructor ()
      ensures Valid() && list == []
    {
      list := [];
    }

    /** FromList: a fresh heap holding the given elements in their given
        order, then repaired once. It holds exactly those elements, with the
        smallest at index 0. */
    static method FromList(initList: seq<int>) returns (heap: Heap)
      ensures fresh(heap) && heap.Valid()
      ensures heap.list == Repaired(initList)
      ensures multiset(heap.list) == multiset(initList)
    {
      heap := new Heap();
      heap.list := heap.list + initList;
      assert heap.list == initList;
      heap.MinHeapify();
    }

    /** Verify(index): whether the subtree rooted at index is ordered; true
        past the end of the list, and at the root exactly the min-heap
        invariant. Being a function it cannot change the list. */
    function Verify(index: nat := 0): (ok: bool)
      reads this
      ensures index >= |list| ==> ok
      ensures ok <==> SubtreeOrdered(list, index)
      ensures index == 0 ==> (ok <==> IsHeap(list))
    {
      VerifyFromMeaning(list, index);
      VerifyRootIsHeap(list);
      VerifyFrom(list, index)
    }

    /** Fix(index): swap the element at index with its parent's when it is
        strictly smaller, then do the same from the parent unless the parent
        is the root. The number of elements and the multiset of elements
        stay the same, and only positions on the path from index to the root
        change. */
    method Fix(index: nat)
      requires 1 <= index < |list|
      modifies this
      ensures list == Fixed(old(list), index)
      ensures |list| == |old(list)| && multiset(list) == multiset(old(list))
      ensures forall k :: 0 <= k < |list| && !OnPath(k, index) ==> list[k] == old(list)[k]
      decreases index
    {
      var parent := Parent(index);
      if list[index] < list[parent] {
        list := list[index := list[parent]][parent := list[index]];
      }
      if parent > 0 {
        Fix(parent);
      }
      FixedFrame(old(list), index);
    }

    /** MinHeapify: twice over, Fix(i) for every i from Count - 1 down to 1.
        The list ends a permutation of itself with its minimum at index 0; a
        list of at most one element is not touched. */
    method MinHeapify()
      modifies this
      ensures list == Repaired(old(list))
      ensures Valid()
      ensures |list| == |old(list)| && multiset(list) == multiset(old(list))
      ensures |old(list)| <= 1 ==> list == old(list)
    {
      for j := 0 to PassCount
        invariant list == Passes(old(list), j)
      {
        ghost var before := list;
        var i := |list| - 1;
        while i > 0
          invariant -1 <= i < |list| == |before|
          invariant PassBelow(list, i + 1) == Pass(before)
        {
          Fix(i);
          i := i - 1;
        }
      }
    }

    /** The corrected repair: Fix(i) for every i from 1 up to Count - 1, so
        that each element is bubbled up into the heap formed by the ones
        before it. It always leaves a heap of the same elements. */
    method MinHeapifyAscending()
      modifies this
      ensures list == AscendingRepaired(old(list))
      ensures IsHeap(list)
      ensures |list| == |old(list)| && multiset(list) == multiset(old(list))
    {
      ghost var before := list;
      if |list| > 1 {
        var i := 1;
        while i < |list|
          invariant 1 <= i <= |list| == |before|
          invariant AscendingFrom(list, i) == AscendingFrom(before, 1)
        {
          Fix(i);
          i := i + 1;
        }
      }
      AscendingRepairedIsHeap(before);
    }

    /** Insert: append the item, then repair the whole list. The heap grows
        by exactly one element, the item, and a heap that satisfied the
        min-heap invariant still does. */
    method Insert(item: int)
      modifies this
      ensures list == Repaired(old(list) + [item])
      ensures Valid()
      ensures |list| == |old(list)| + 1
      ensures multiset(list) == multiset(old(list)) + multiset{item}
      ensures IsHeap(old(list)) ==> IsHeap(list)
    {
      ghost var before := list;
      list := list + [item];
      MinHeapify();
      if IsHeap(before) {
        InsertKeepsHeap(before, item);
      }
    }

    /** PeekMinimum: the element at index 0, which is the smallest element;
        on an empty heap the EmptyContainer failure. */
    function PeekMinimum(): (r: Result<int>)
      reads this
      ensures r.Err? <==> |list| == 0
      ensures r.Err? ==> r.error == EmptyContainer
      ensures r.Ok? ==> r.value == list[0] && r.value in multiset(list)
      ensures Valid() && r.Ok? ==> forall k :: 0 <= k < |list| ==> r.value <= list[k]
    {
      if |list| == 0 then Err(EmptyContainer) else Ok(list[0])
    }

    /** IsEmpty: the heap holds no element, which is exactly when
        PeekMinimum fails. */
    function IsEmpty(): (b: bool)
      reads this
      ensures b <==> PeekMinimum().Err?
    {
      |list| == 0
    }

    /** ExtractMinimum: read the minimum (failing, with nothing changed, on
        an empty heap), drop index 0, shifting the rest down, repair, and
        return the minimum. The returned element is no larger than any
        element before or after the call, and the heap keeps exactly the
        others. */
    method ExtractMinimum() returns (r: Result<int>)
      requires Valid()
      modifies this
      ensures Valid()
      ensures r == old(PeekMinimum())
      ensures r.Err? ==> list == old(list)
      ensures r.Ok? ==> list == Repaired(old(list)[1..])
      ensures r.Ok? ==> multiset(list) + multiset{r.value} == multiset(old(list))
      ensures r.Ok? ==> forall k :: 0 <= k < |old(list)| ==> r.value <= old(list)[k]
      ensures r.Ok? ==> forall k :: 0 <= k < |list| ==> r.value <= list[k]
    {
      r := PeekMinimum();
      if r.Ok? {
        ghost var rest := list[1..];
        assert list == [r.value] + rest;
        list := list[1..];
        MinHeapify();
        forall k | 0 <= k < |list|
          ensures r.value <= list[k]
        {
          assert list[k] in multiset(rest);
          var j :| 0 <= j < |rest| && rest[j] == list[k];
          assert rest[j] == old(list)[j + 1];
        }
      }
    }
  }
}
