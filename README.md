# DSA-Heap: a verified model of the array-backed min-heap

This project models the class `Heap` of `Program.cs`. It is a binary min-heap of integers. The elements live in a growable list, with the root at index 0 and the children of index `i` at `2(i+1)-1` and `2(i+1)`. Every mutation ends by running the whole repair, `MinHeapify`. `MinHeapify` makes two passes. Each pass calls `Fix(i)` for every `i` from `Count - 1` down to 1, and `Fix(i)` bubbles the element at `i` towards the root.

The project has four modules:

- `HeapIndex` (`heap_index.dfy`) models the index arithmetic: `GetLeft`, `GetRight` and `GetParentIndex`. It also defines the ancestor path that `Fix` walks.
- `HeapSpec` (`heap_spec.dfy`) states what the list holds after `Fix`, after one pass, and after `MinHeapify`. These are pure functions on `seq<int>`. The module proves the properties the heap relies on:
  - every step is a permutation;
  - one descending pass brings the minimum to index 0;
  - the repair leaves an existing heap untouched;
  - `Insert` keeps a heap a heap;
  - repeated extraction yields a sorted sequence;
  - `Verify` answers exactly the heap invariant.
- `MinHeap` (`heap.dfy`) holds the class `Heap`. Its field `list: seq<int>` is reassigned by the methods `Fix`, `MinHeapify`, `Insert`, `ExtractMinimum` and `FromList`. Each method is proved against the functions of `HeapSpec`. The read-only members (`Verify`, `PeekMinimum`, `IsEmpty`) are functions. The invariant every operation keeps is `Valid()`: the smallest element is at index 0.
- `HeapFindings` (`heap_findings.dfy`) shows that the two-pass repair does not always produce a heap. It gives a 66-element input after which `Verify()` answers false (see "## Findings").

Reading the minimum of an empty heap is a .NET index-out-of-range exception in the source. Here it is the `EmptyContainer` error of a `Result`, and the list is left unchanged. `GetParentIndex(0)` is `-1` in the code. The model follows the code: `Parent(0) == -1`, and `Fix` never asks for the parent of 0.

## Model

| member | source | states |
|---|---|---|
| HeapIndex.Parent | Program.cs:91-94 | The root's parent index is -1. Every other index has a parent strictly below it, and the index is that parent's left or right child. This is what keeps Fix's recursion in bounds and terminating. |
| HeapIndex.Left | Program.cs:81-84 | The left child of i lies after i, and its parent is i. |
| HeapIndex.Right | Program.cs:86-89 | The right child is next to the left child, and its parent is i. |
| HeapIndex.ChildOfParent | Program.cs:81-94 | Every non-root index is the left or the right child of its parent. |
| HeapIndex.OnPath | Program.cs:101-115 | An index on the path Fix(i) walks up is never beyond i. |
| HeapIndex.SubtreeSplit | Program.cs:65-78 | The strict descendants of a node are exactly the descendants of its left child together with those of its right child. Verify recurses along this split. |
| HeapSpec.HeapAncestorsAreSmaller | Program.cs:58-79 | In a heap, every element is no smaller than each of its ancestors. |
| HeapSpec.HeapRootIsMin | Program.cs:149-152 | A heap keeps its minimum at index 0, so PeekMinimum reads the minimum. |
| HeapSpec.SmallRootMinIsHeap | Program.cs:117-129 | With at most three elements, a minimum at index 0 is the whole heap invariant. The repair therefore yields a heap on such lists. |
| HeapSpec.Swap | Program.cs:108 | The tuple assignment exchanges the two positions, keeps every other one and keeps the multiset. |
| HeapSpec.PathMin | Program.cs:101-115 | The smallest element on the path from i to the root: no larger than every element on the path, and equal to one of them. |
| HeapSpec.PathMinFrame | Program.cs:101-115 | PathMin depends only on the positions on the path. |
| HeapSpec.Fixed | Program.cs:101-115 | The list after Fix(i) has the same length and the same multiset of elements. |
| HeapSpec.FixedFrame | Program.cs:101-115 | Fix(i) changes only positions on the path from i to the root. Afterwards the root is no larger than the old root, the old element at i, or the new element at i. |
| HeapSpec.FixedOffPath | Program.cs:101-115 | A given position off the path from i to the root keeps its element through Fix(i). |
| HeapSpec.FixedRootIsPathMin | Program.cs:101-115 | Fix(i) leaves at the root the smallest element of the path from i to the root. |
| HeapSpec.FixedOnOrderedPrefix | Program.cs:101-115 | On a list whose prefix is already ordered, Fix swaps nothing. |
| HeapSpec.SiftUp | Program.cs:101-115 | When the element at c is the only one out of place, Fix(c) restores the heap invariant: Fix is a correct sift-up. |
| HeapSpec.PassBelow | Program.cs:123-126 | The inner loop, from a given index down to 1, permutes the list. |
| HeapSpec.PassBelowRootMin | Program.cs:123-126 | After the inner loop has run from k - 1 down to 1, the root is no larger than any element, provided it already was no larger than the positions from k on. |
| HeapSpec.PassBelowOnHeap | Program.cs:123-126 | The inner loop over a heap swaps nothing. |
| HeapSpec.Pass | Program.cs:122-126 | One descending pass permutes the list and leaves its minimum at index 0. It does nothing to a list of at most one element. |
| HeapSpec.Passes | Program.cs:119-127 | After one or more passes, the list is a permutation with its minimum at index 0. |
| HeapSpec.Repaired | Program.cs:117-129 | MinHeapify's result is a permutation of its input, of the same length, with the minimum at index 0. A list of at most one element is left as it is. |
| HeapSpec.RepairedOnHeap | Program.cs:117-129 | MinHeapify leaves a valid heap unchanged. |
| HeapSpec.AppendedIsOnlyMisplaced | Program.cs:131-136 | After Insert's append to a heap, the new element is the only one that may be out of place. |
| HeapSpec.PassFirstStep | Program.cs:123-125 | A pass over at least two elements begins with Fix(Count - 1). |
| HeapSpec.InsertKeepsHeap | Program.cs:131-136 | Inserting into a valid heap and repairing yields a valid heap. |
| HeapSpec.Drained | Program.cs:138-147 | Extracting until empty returns every element exactly once: same length, same multiset. |
| HeapSpec.DrainedSorted | Program.cs:138-152 | Starting from a list with its minimum at index 0, repeated extraction returns the elements in non-decreasing order. |
| HeapSpec.VerifyFrom | Program.cs:58-79 | Verify(index) answers true for any index at or past the end. |
| HeapSpec.VerifyFromMeaning | Program.cs:58-79 | Verify(index) is true exactly when every parent-child pair in the subtree rooted at index is ordered. |
| HeapSpec.VerifyRootIsHeap | Program.cs:58-79 | Verify(0) is true exactly when every in-range child is no smaller than its parent. |
| HeapSpec.AscendingFrom | Program.cs:101-115 | Running Fix(k), Fix(k + 1), ... up to the end permutes the list. |
| HeapSpec.AscendingRepaired | Program.cs:117-129 | The corrected repair permutes the list. |
| HeapSpec.ExtendHeapByOne | Program.cs:101-115 | When the first k positions form a heap, Fix(k) extends the heap to the first k + 1. |
| HeapSpec.AscendingFromIsHeap | Program.cs:101-115 | The ascending run of Fix completes a heap of the first k positions into a heap of the whole list. |
| HeapSpec.AscendingRepairedIsHeap | Program.cs:117-129 | The corrected repair always yields a valid heap. |
| MinHeap.Heap.constructor | Program.cs:8-10 | A new heap is empty and satisfies the invariant. |
| MinHeap.Heap.FromList | Program.cs:12-20 | The new heap holds exactly the given elements, as the repair leaves them, with the smallest at index 0. |
| MinHeap.Heap.Verify | Program.cs:58-79 | Verify reads without mutating, and its index defaults to 0. It is true past the end, true exactly when the subtree is ordered, and at index 0 true exactly when the list is a heap. |
| MinHeap.Heap.Fix | Program.cs:101-115 | The list becomes Fixed(old list, index). Its length and multiset are kept, and positions off the path to the root are untouched. |
| MinHeap.Heap.MinHeapify | Program.cs:117-129 | The two nested loops leave Repaired(old list): a permutation of the same length with its minimum at index 0. A list of at most one element is untouched. |
| MinHeap.Heap.MinHeapifyAscending | Program.cs:117-129 | The corrected repair, one ascending pass of Fix, leaves a valid heap of the same elements. |
| MinHeap.Heap.Insert | Program.cs:131-136 | Count grows by exactly one and the contents are the old multiset plus the item. The minimum is at index 0, and a heap stays a heap. |
| MinHeap.Heap.PeekMinimum | Program.cs:149-152 | Fails with EmptyContainer exactly when the heap is empty. Otherwise it returns the element at index 0, which is an element of the heap no larger than any element. |
| MinHeap.Heap.IsEmpty | Program.cs:154 | True exactly when PeekMinimum fails, that is, when Count is zero. |
| MinHeap.Heap.ExtractMinimum | Program.cs:138-147 | On an empty heap it fails with EmptyContainer and changes nothing. Otherwise it returns the old element at index 0, which is no larger than any element before or after the call. It leaves exactly the old multiset minus that element, repaired, with the minimum at index 0. |
| HeapFindings.FixedZeroOne | Program.cs:101-115 | On a list of zeros and ones, Fix moves a zero up exactly where the zero set tracks it. |
| HeapFindings.RepairedZeroOne | Program.cs:117-129 | MinHeapify on a list of zeros and ones is computed by the zero-set passes. |
| HeapFindings.MisplacedIsNotHeap | Program.cs:58-79 | A zero under a one is a violation of the heap invariant. |
| HeapFindings.TwoPassesCanMissHeap | Program.cs:117-129 | There is a 66-element list on which MinHeapify, as written, does not produce a heap. |
| HeapFindings.BuildAndVerify | Program.cs:12-20 | FromList followed by Verify() answers exactly whether the two-pass repair of the input is a heap. |
| HeapFindings.WitnessFailsVerify | Program.cs:171-173 | On the 66-element witness, Verify() after FromList answers false. |

## Left out

- PrettyPrint, Log, ToString and the console output inside MinHeapify are left out. They only write text and do not change the heap.
- Program.Main and its 100-element sample list are left out. They are a demonstration harness; the model's own scenario is the witness in HeapFindings.
- The .NET `List<int>` allocation behaviour (`AddRange`, `GetRange` returning a new list) is not modelled. The list is a value sequence that the methods reassign. No two heaps share a list in the source either.
- The index-out-of-range exception of PeekMinimum on an empty heap is not modelled as an exception. It is the `EmptyContainer` error result.
- `int` overflow is not modelled. The index arithmetic `2 * (index + 1)` would only overflow for lists of more than about 2^30 elements. Elements are only compared, never added.
- Negative arguments to Verify, GetLeft, GetRight and GetParentIndex are not modelled: indices are `nat`. The class only ever calls them with non-negative indices.
- MinHeap.Heap.ExtractMinimum: requires `Valid()`, the class invariant every public operation establishes. The list is private, so no caller can break it. The model does not claim that ExtractMinimum keeps a full heap a heap. Dropping index 0 shifts every element, so the list handed to the two-pass repair is in general not a heap, and that repair does not always produce one (see "## Findings").
- MinHeap.Heap.FromList: does not promise `Verify()` afterwards. It promises the permutation and the minimum at index 0. HeapFindings.WitnessFailsVerify shows that a full heap is not guaranteed.
- MinHeap.Heap.MinHeapify: keeps the algorithm as written, two descending passes. The heap class does not switch to the corrected repair; MinHeapifyAscending sits beside it.

## Findings

| source | as written | input that shows it | evidently intended | confidence | as-written member | corrected member |
|---|---|---|---|---|---|---|
| Program.cs:117-129 | MinHeapify runs two descending passes of Fix(Count - 1) … Fix(1) and assumes the list is then a heap. | 66 elements, all 1 except 0 at indices 1, 15, 31, 32, 63 and 65. After both passes index 65 holds 0 under index 32 holding 1, so Verify() after FromList answers false. | A repair that always leaves a heap, such as one ascending pass Fix(1) … Fix(Count - 1), each step bubbling the new element into the heap before it. | not executed | HeapFindings.TwoPassesCanMissHeap | MinHeap.Heap.MinHeapifyAscending |
