# Min-heap priority queue

This project models a binary min-heap and the priority queue built on it.
The heap keeps `(priority, item)` pairs in a list laid out as a tree with
index 0 at the root. The node at index `k` has its children at `2k + 1` and
`2k + 2`, and every node's priority is at most its children's. `add` appends
a pair and bubbles it up. `pop_min` swaps the root with the last pair,
removes that last pair, and bubbles the new root down. The priority queue
forwards every operation to the heap it owns.

The model has two modules:

- `MinHeaps` (`min_heap.dfy`) holds everything about the heap:
  - the `Entry` pair and an `Option` result;
  - the index arithmetic;
  - the heap property, plus the "heap except at one index" invariants that
    the two bubbling loops keep;
  - the outcome predicates `PeekOutcome`, `AddOutcome` and `PopOutcome`;
  - the class `MinHeap`, whose `seq` field `data` its methods reassign.
    Each loop of the source is a `while` loop with its invariants.
- `PriorityQueues` (`priority_queue.dfy`) holds the class `PriorityQueue`.
  It owns a `MinHeap` and promises the same outcome predicates as the heap.

`peek` and `pop` return `None` on an empty heap, and otherwise the stored
pair in `(priority, item)` order. A comment at
`priority_queue/priority_queue.py:39` asks for `(item, priority)`, but the
code returns the stored `(priority, item)` tuple. The model follows the code.

## Model

| member | source | states |
|---|---|---|
| MinHeaps.Left | priority_queue/priority_queue.py:19 | the left child index `2k + 1` of `k`, which lies after `k`; the loop at 112 computes the same index |
| MinHeaps.Right | priority_queue/priority_queue.py:20 | the right child index `2k + 2` of `k`, which lies after the left one; the loop at 113 computes the same index |
| MinHeaps.IsHeap | priority_queue/priority_queue.py:15 | every entry's priority is at most its children's; this is what `MinHeap.Valid()` means |
| MinHeaps.Parent | priority_queue/priority_queue.py:21 | the parent index `(i - 1) // 2` of a non-root index lies strictly before it |
| MinHeaps.ParentOfChildren | priority_queue/priority_queue.py:18-21 | the parent of either child of `k` is `k` |
| MinHeaps.SmallerChild | priority_queue/priority_queue.py:118-120 | the chosen child exists, is one of the two children, and has priority at most both; the right child is chosen only if strictly smaller, so ties go left |
| MinHeaps.Swap | priority_queue/priority_queue.py:79-81 | exchanging two positions keeps the length and the multiset of pairs, moves the two pairs and leaves every other position unchanged |
| MinHeaps.HeapIffParentBelow | priority_queue/priority_queue.py:15-21 | "every node is at most its children" holds exactly when "every non-root node is at least its parent `(i - 1) // 2`", in both directions |
| MinHeaps.RootBelow | priority_queue/priority_queue.py:15-16 | in a heap the root's priority is at most that of every index, by induction along the parent chain |
| MinHeaps.RootIsMinimum | priority_queue/priority_queue.py:15-16 | in a non-empty heap the pair at index 0 has the smallest priority |
| MinHeaps.PathContinues | priority_queue/priority_queue.py:101-102 | stepping from an index to its parent stays on the path from the starting index to the root |
| MinHeaps.SwapInSubtree | priority_queue/priority_queue.py:125-129 | a swap one level further down changes nothing outside the subtree where bubbling down started |
| MinHeaps.AppendedHeap | priority_queue/priority_queue.py:63-64 | appending to a heap gives a heap except at the new last index, which is what bubbling up starts from |
| MinHeaps.SwapUpStep | priority_queue/priority_queue.py:97-101 | swapping a node that is smaller than its parent moves the single heap violation to the parent |
| MinHeaps.UpSettled | priority_queue/priority_queue.py:94-97 | when bubbling up stops, at the root or below a parent with priority at most its own, the list is a heap |
| MinHeaps.RootReplacedHeap | priority_queue/priority_queue.py:78-83 | moving the last pair to the root and dropping the last position gives a heap except at the root |
| MinHeaps.SwapDownStep | priority_queue/priority_queue.py:118-129 | swapping a node with its strictly smaller child moves the single heap violation to that child |
| MinHeaps.DownSettled | priority_queue/priority_queue.py:115-123 | when bubbling down stops, with no children or with priority at most the smaller child, the list is a heap |
| MinHeaps.PopsAreSorted | priority_queue/priority_queue.py:66-88 | after any run of successful pops the priorities come out in non-decreasing order, and the popped pairs plus what remains are exactly the original contents |
| MinHeaps.PopFrom | priority_queue/priority_queue.py:66-88 | a pop returns `None` exactly when the heap holds nothing; otherwise it returns a held pair of least priority and the heap keeps the rest |
| MinHeaps.PeekFrom | priority_queue/priority_queue.py:52-57 | a peek returns `None` exactly when the heap holds nothing, otherwise a held pair of least priority |
| MinHeaps.MinHeap.constructor | priority_queue/priority_queue.py:42-44 | a new heap is empty and satisfies the heap property |
| MinHeaps.MinHeap.Size | priority_queue/priority_queue.py:46-47 | returns the number of stored pairs |
| MinHeaps.MinHeap.IsEmpty | priority_queue/priority_queue.py:49-50 | true exactly when no pair is stored |
| MinHeaps.MinHeap.Peek | priority_queue/priority_queue.py:52-57 | `None` on an empty heap; otherwise the root pair, whose priority is the smallest stored; the heap is unchanged |
| MinHeaps.MinHeap.Add | priority_queue/priority_queue.py:59-64 | the heap grows by one and holds the old pairs plus the new one, and the heap property is kept |
| MinHeaps.MinHeap.PopMin | priority_queue/priority_queue.py:66-88 | `None` and no change on an empty heap; otherwise returns the old root, a pair of least priority, and leaves a heap of the remaining pairs, all with priority at least the returned one |
| MinHeaps.MinHeap.Exchange | priority_queue/priority_queue.py:79-81 | the three-statement temporary swap exchanges two positions of the list |
| MinHeaps.MinHeap.BubbleUp | priority_queue/priority_queue.py:90-102 | from a heap that is broken only at `start`, restores the heap property with the same pairs. It touches only indices on the path from `start` to the root, and changes nothing when `start` is already at least its parent |
| MinHeaps.MinHeap.BubbleDown | priority_queue/priority_queue.py:104-129 | from a heap that is broken only at `start`, restores the heap property with the same pairs. It touches only the subtree below `start`, and changes nothing when `start` has no children or is at most its smaller child |
| PriorityQueues.PriorityQueue.constructor | priority_queue/priority_queue.py:136-137 | a new queue owns a new, empty heap |
| PriorityQueues.PriorityQueue.IsEmpty | priority_queue/priority_queue.py:139-140 | true exactly when the queue holds no pair |
| PriorityQueues.PriorityQueue.Add | priority_queue/priority_queue.py:142-143 | same outcome as `MinHeap.Add` on the owned heap |
| PriorityQueues.PriorityQueue.Pop | priority_queue/priority_queue.py:145-146 | same outcome as `MinHeap.PopMin` on the owned heap |
| PriorityQueues.PriorityQueue.Peek | priority_queue/priority_queue.py:148-149 | same outcome as `MinHeap.Peek` on the owned heap |
| PriorityQueues.PriorityQueue.Size | priority_queue/priority_queue.py:151-152 | the number of pairs in the owned heap |

## Left out

- Priorities are mathematical integers, and items are of an arbitrary type `T`. The model does not cover dynamically typed values, or priorities that cannot be compared and would make Python raise.
- `__len__` is the method `Size`, because Dafny has no length protocol to hook into.
- The 1-indexed layout that the comments allow as an alternative is not modelled, because the code uses 0-indexing.
- The O(log n) running time is not modelled. Only termination of both bubbling loops is proved.
- The model promises no stability among equal priorities, and neither does the source.
- The "or raise an error" alternative for an empty `peek` is not modelled, because the code returns `None`.
- MinHeaps.MinHeap.BubbleUp: requires `start < |data|`. For `0 < start` with `start >= len(data)`, the source raises `IndexError`. `start = 0` on an empty list is a no-op there, and so is a negative start, which `nat` excludes. Its one caller, `add`, passes the last index of a non-empty list.
- MinHeaps.MinHeap.BubbleUp and MinHeaps.MinHeap.BubbleDown: both require the list to be a heap except at `start`. Their only callers, `add` and `pop_min`, establish that.
- The Python list is modelled as a `seq` value that the methods reassign. Each heap owns its list, so nothing else can alias it.
- There is no I/O.
