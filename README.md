# Sequence heap core, modelled in Dafny

This project models the core of a hierarchical, cache-efficient priority
queue (a sequence heap), the header `spq/knheap.h`:

- `NumberRange`, the sentinel keys. Keys are a 32-bit signed integer type, so
  the infimum is its lowest value and the supremum its largest. A key is
  legal exactly when it lies strictly between the two.
- `BinaryHeap`, the fixed-capacity insertion buffer. It is a class over an
  array of `capacity + 2` slots. Slot 0 holds the infimum sentinel and slot
  `capacity + 1` the supremum sentinel. Every unused slot carries the
  supremum key, so the sift loops never test array bounds. Its `insert`,
  `deleteMin`, `deleteMinFancy`, `sortTo`, `reset` and accessors are methods
  and functions. Each loop is proved with invariants against the contents of
  the heap as a multiset (`Elements()`).
- The inline accessors of `KNLooserTree`, one tournament level:
  `spaceIsAvailable`, `getSize` and `getSupremum`.
- `KNHeap`, the queue itself: the deletion buffer `buffer1` with its cursor
  `minBuffer1`, the insertion heap, and the inline operations `getSize`,
  `getMin`, `deleteMin` and `insert`. The merge levels behind `buffer1` are
  represented by one ascending sequence `below`. The cached part of `buffer1`
  followed by `below` is the stream of all elements outside the insertion
  heap, in ascending order. `refillBuffer1` and `emptyInsertHeap` are given
  bodies over that representation. `refillBuffer1` moves the front of the
  stream into `buffer1`. `emptyInsertHeap` sorts the insertion heap into a
  run and merges it into the stream.

The object invariants:

- `BinaryHeap.Valid`: the sentinels are in place, unused slots carry the
  supremum, slots `1..size` are in heap order, and every live key is legal.
- `KNHeap.Valid`: the insertion heap is valid and the stream is ascending
  with legal keys. `buffer1` ends in a supremum sentinel, and it is
  exhausted only when the merge levels are empty.

Every public operation preserves its class's invariant and states its effect
on the contents as a multiset.

Modules: `Tuning` (the compile-time constants), `NumberRange` (the
sentinels and legal keys), `ElementBags` (elements, ascending runs and bags
of legal elements), `HeapOrder`
(heap order, the slot bag and the loop states of `insert` and `deleteMin`),
`SortOrder` (the loop state of `sortTo`), `BinaryHeaps`, `LooserTrees`,
`SortedRuns` (merging ascending runs, for the stand-in body of
`emptyInsertHeap`) and `KNHeaps`.

## Model

| member | source | states |
|---|---|---|
| NumberRange.SentinelsAreNotKeys | spq/knheap.h:28-36 | a key is legal exactly when it is neither sentinel; neither sentinel is legal |
| HeapOrder.RootIsMinOfBag | spq/knheap.h:59 | in a heap-ordered array the root is one of the live elements and no live key is smaller |
| BinaryHeaps.BinaryHeap.ElementsAreLiveSlots | spq/knheap.h:49-50 | the heap's contents are exactly the multiset of slots 1..size of `data` |
| BinaryHeaps.BinaryHeap.constructor | spq/knheap.h:52-56 | places both sentinels and resets: the heap is valid, empty and of the given capacity |
| BinaryHeaps.BinaryHeap.Reset | spq/knheap.h:74-84 | size becomes 0 and every slot 1..capacity carries the supremum key, so the heap is valid and empty |
| BinaryHeaps.BinaryHeap.GetSize | spq/knheap.h:58 | the result is the number of live elements |
| BinaryHeaps.BinaryHeap.GetMinKey | spq/knheap.h:59 | on a non-empty heap the result is the legal key of a live element, no smaller than any live key; on an empty heap it is the supremum |
| BinaryHeaps.BinaryHeap.GetMinValue | spq/knheap.h:60 | on a non-empty heap the result, paired with the minimum key, is a live element |
| BinaryHeaps.BinaryHeap.DeleteMinFancy | spq/knheap.h:62-66 | returns exactly the pair `getMinKey` and `getMinValue` reported before the call, which is a live element of minimum key, and removes exactly one copy of it; the invariant is kept and size drops by one |
| BinaryHeaps.BinaryHeap.DeleteMin | spq/knheap.h:86-118 | removes one copy of the old root, which is a live element of minimum key; size drops by one, the old last slot carries the supremum, and the heap stays valid |
| BinaryHeaps.BinaryHeap.MoveHoleDown | spq/knheap.h:92-101 | the hole left at the root moves down the min-path until it has fewer than two children, and the slots stay ordered around it |
| BinaryHeaps.BinaryHeap.BubbleFrom | spq/knheap.h:103-110 | the hole climbs until its parent's key is no larger than the last element's key, and the array stays ordered around the hole |
| BinaryHeaps.BinaryHeap.BubbleUpLast | spq/knheap.h:103-117 | the last element fills the hole and its old slot is marked unused: the heap is ordered again with one element fewer |
| BinaryHeaps.BinaryHeap.SortTo | spq/knheap.h:121-149 | the first size slots of `to` become an ascending permutation of the heap's elements; the rest of `to` is untouched, and the heap is left valid and empty |
| BinaryHeaps.BinaryHeap.OutputAll | spq/knheap.h:130-147 | after size rounds the output is ascending, and it holds everything except what is still live |
| BinaryHeaps.BinaryHeap.OutputRoot | spq/knheap.h:131-146 | one round copies the current minimum to the next output slot and keeps the round invariant; no other slot of `to` changes |
| BinaryHeaps.BinaryHeap.SinkRoot | spq/knheap.h:135-146 | the hole at the root sinks to a leaf, which is marked with the supremum; the array is heap-ordered and holds the old live elements plus that one unused slot |
| SortOrder.SortEnd | spq/knheap.h:147-148 | once every element is output, the output is sorted and a permutation of the original contents, and the heap is empty |
| BinaryHeaps.BinaryHeap.Insert | spq/knheap.h:152-175 | for a legal key and a heap below capacity, adds exactly one copy of (k, v), grows size by one, and keeps the heap valid |
| BinaryHeaps.BinaryHeap.ClimbFrom | spq/knheap.h:160-170 | the hole climbs from the new last slot until its parent's key is at most k; the infimum in slot 0 guarantees this stops |
| LooserTrees.ArityBelowMax | spq/knheap.h:196 | with k = 2^logK and logK at most its maximum, k is below the maximal arity exactly when logK is below its maximum |
| LooserTrees.LooserTree.SpaceIsAvailable | spq/knheap.h:234 | true exactly when the arity may still double or a freed segment slot is on the stack; when false the tree is at full arity with an empty stack |
| LooserTrees.LooserTree.GetSize | spq/knheap.h:237 | the level's element counter |
| LooserTrees.LooserTree.GetSupremum | spq/knheap.h:238 | the sentinel key, which is the supremum and not a legal key |
| KNHeaps.KNHeap.constructor | spq/knheap.h:280 | a valid, empty queue whose insertion heap, its array and `buffer1` are freshly allocated, so the queue alone owns them |
| KNHeaps.KNHeap.GetSize | spq/knheap.h:288-295 | the sum of the three parts is the number of elements held |
| KNHeaps.KNHeap.GetMin | spq/knheap.h:297-308 | an element held whose key is no larger than any key held, or the supremum sentinel when the queue is empty; on equal keys the element cached in `buffer1` is the one reported |
| KNHeaps.FrontIsMin | spq/knheap.h:299-301 | the smaller of the heap's minimum and the stream's head bounds every element of both |
| KNHeaps.KNHeap.DeleteMin | spq/knheap.h:310-327 | returns exactly what `getMin` reported before the call, which is a minimal element held, and removes one copy of it; the invariant is kept. When the insertion heap's minimum key is at least the key at the cursor, the stream loses its head and the insertion heap is unchanged; otherwise the insertion heap shrinks by one and the stream is unchanged |
| KNHeaps.KNHeap.PopBuffer1 | spq/knheap.h:314-321 | when the cursor's key is no larger than the insertion heap's minimum, reports the element `getMin` reports, which is the head of the stream; the stream loses exactly that head, and the insertion heap keeps its size and contents |
| KNHeaps.KNHeap.PopInsertHeap | spq/knheap.h:322-326 | when the insertion heap's minimum key is smaller, reports the element `getMin` reports and deletes one copy of it from the insertion heap, whose size drops by one; the stream is unchanged |
| KNHeaps.KNHeap.Advance | spq/knheap.h:317-321 | the cursor moves past the head of the stream, refilling `buffer1` when it is exhausted; the stream loses exactly its head |
| KNHeaps.KNHeap.RefillBuffer1 | spq/knheap.h:268 | with `buffer1` exhausted, moves the front of the stream into it: the stream is unchanged, and `buffer1` is empty only when the merge levels are |
| KNHeaps.KNHeap.EmptyInsertHeap | spq/knheap.h:275 | the insertion heap is emptied into the stream; the queue's contents are unchanged and the invariant is kept |
| KNHeaps.KNHeap.Insert | spq/knheap.h:329-333 | adds exactly one copy of (k, v), and always into the insertion heap. The insertion heap is emptied first exactly when it holds `KNN` elements, after which it holds only (k, v); otherwise it gains exactly (k, v), and the queue's own fields, `buffer1` and so the stream are unchanged |

## Left out

- Floating-point keys: the model fixes the key type to a 32-bit signed integer. For that type `inf()` and `sup()` are its lowest and largest values; keys with an infinity are not modelled.
- Template genericity: the value type is a type parameter. Capacities are a constructor argument or the constants of `Tuning`.
- Pointer arithmetic (`minBuffer1`, `to`, `beyond`, `root`) is re-expressed as array indices.
- `Assert2` preconditions become `requires` clauses, and the `Debug4` trace is dropped.
- Counter width: all counters and indices are unbounded naturals. `BinaryHeap.size` and the buffer indices never exceed `KNN` = 512, so this changes nothing for them. The queue's `size`, the result of `KNHeap::getSize` and `KNLooserTree::size` are 32-bit `int`s in the source. They would overflow before the documented capacity `KNN * KNKMAX^KNLevels` = 2^33 is reached. The model's unbounded counters do not capture that overflow.
- The bodies of the `KNLooserTree` operations (`init`, `multiMerge*`, `insertSegment`, `doubleK`, `compactTree`, `rebuildLooserTree`, `deallocateSegment`) are not in the header and are not part of this model. Its `Valid` predicate records only the invariants the inline accessors rely on.
- The merge levels of `KNHeap` (`tree`, `buffer2`, `minBuffer2`, `activeLevels`, `refillBuffer2`, `makeSpaceAvailable`, the `refillBuffer1x` variants) are represented by one ascending sequence. Their capacity bound (`KNN * KNKMAX^KNLevels`) is therefore not modelled.
- KNHeaps.KNHeap.RefillBuffer1: its body is defined over that sequence; the implementation file `spq/knheap.C` is not part of this model. It states only what `deleteMin` relies on: the stream is unchanged, and `buffer1` is refilled whenever the levels hold elements.
- KNHeaps.KNHeap.EmptyInsertHeap: its body is likewise defined over that sequence, not taken from the source. It sorts the insertion heap with `sortTo` and hands the run to `AddRun`, which merges it into the stream with `SortedRuns.Merge` (taking from the stream on equal keys). `Merge`, `MergeContents`, `MergeSorted`, `AddRun`, `Restream` and the copy loop `CopyFront` (also used by the body of `RefillBuffer1`) exist only to give this body something to do and model no source lines. The contract states only that the contents are preserved and the insertion heap is emptied, not how the run is placed among the levels.
- KNHeaps.KNHeap.constructor: the `sup` and `infimum` arguments are fixed to the sentinels of the key type.
- KNHeap's private `getSupremum`, `getSize1` and `getSize2` are folded into `GetSize` and the sentinel in `buffer1`.
- LooserTrees.LooserTree.GetSize: states only that it returns the element counter. The counter's relation to the stored segments belongs to the tree operations left out above.
- The loops of `insert`, `deleteMin` and `sortTo` are each written as a separate method (`ClimbFrom`, `MoveHoleDown`, `BubbleFrom`, `OutputAll`, `OutputRoot`, `SinkRoot`), and so are the two branches of `KNHeap::deleteMin` (`PopBuffer1`, `PopInsertHeap`). The order of reads and writes is that of the source.
- The values left behind in unused slots are not specified. The source leaves stale payloads there, and so does the model.
