# DS-Algo playground in Dafny

A verified model of the Swift playground `DS-Algo.playground/Contents.swift`. The playground has six small
data structures and algorithms, modelled in five modules (the two queues share one), plus a sixth
module for optionals:

- `Stacks`: the LIFO `Stack<T>`, a wrapper over a growable array.
- `Queues`: two FIFO queues.
  - The naive `Queue<T>` removes the first slot of its array.
  - `Queue2<T>` clears consumed slots and advances a `head` index. When more than 50 elements remain
    and more than a quarter of the array is consumed, it drops the consumed prefix.
- `LinkedLists`: the doubly linked list `LinkedList<T>` of `LinkedListNode<T>` objects. The list keeps
  only `head` and walks the `next` links to find its last node, its length and the node at an index.
  `insert`, `remove` and `reverse` relink nodes in place.
- `Searching`: the recursive `binarySearch` over a half-open range.
- `Sorting`: `insertionSort`. Despite its name it is a double scan that does not sort (see Findings),
  and its corrected form is an exchange sort.
- `Wrappers`: the `Option` type that stands for Swift's optionals.

Stack, queues and list are classes whose methods update their fields. Each one carries an abstraction:
- `Stack.elements`, the stack's array;
- `Queue.Contents()` / `Queue2.Contents()`, the queued values, earliest first;
- `LinkedList.nodes`, the chain of nodes reachable from `head`, which is also the list's footprint, and
  `LinkedList.Values()`, their values.

Every method states its new state in terms of that abstraction. `Queue2.dequeue` is also tied to a pure
step function `DequeueStep`, and its properties are proved about that function.

`insertionSort` and its corrected form are loops over a copy of the input. Each is proved equal to a
recursive specification function (`DoubleScan`, `ExchangeScan`), and that function's properties are
proved as lemmas.

## Model

| member | source | states |
|---|---|---|
| Stacks.Stack.constructor | DS-Algo.playground/Contents.swift:5-6 | a new stack has an empty array |
| Stacks.Stack.IsEmpty | DS-Algo.playground/Contents.swift:8-10 | true exactly when no element is stored |
| Stacks.Stack.Count | DS-Algo.playground/Contents.swift:12-14 | the number of stored elements |
| Stacks.Stack.Push | DS-Algo.playground/Contents.swift:16-18 | the element is appended, becomes the top, and the count grows by one |
| Stacks.Stack.Pop | DS-Algo.playground/Contents.swift:20-22 | returns what `top` was; removes the last element, or leaves an empty stack unchanged and returns None |
| Stacks.Stack.Top | DS-Algo.playground/Contents.swift:24-26 | None exactly on an empty stack, otherwise the most recently pushed element |
| Stacks.PushThenPop | DS-Algo.playground/Contents.swift:16-22 | LIFO: a pop right after a push returns the pushed element and restores the stack |
| Queues.Queue.constructor | DS-Algo.playground/Contents.swift:32-33 | a new queue is empty |
| Queues.Queue.IsEmpty | DS-Algo.playground/Contents.swift:35-37 | true exactly when the contents are empty |
| Queues.Queue.Count | DS-Algo.playground/Contents.swift:39-41 | the length of the contents |
| Queues.Queue.Enqueue | DS-Algo.playground/Contents.swift:43-45 | the element joins the back of the contents |
| Queues.Queue.Dequeue | DS-Algo.playground/Contents.swift:47-54 | None and no change on an empty queue; otherwise returns the earliest element and the contents lose exactly it |
| Queues.Queue.Front | DS-Algo.playground/Contents.swift:56-58 | None exactly on an empty queue, otherwise the earliest element |
| Queues.Queue2.constructor | DS-Algo.playground/Contents.swift:62-64 | a new queue has an empty array, `head` 0 and no contents |
| Queues.Queue2.IsEmpty | DS-Algo.playground/Contents.swift:66-68 | true exactly when the contents are empty |
| Queues.Queue2.Count | DS-Algo.playground/Contents.swift:70-72 | `array.count - head` is the length of the contents |
| Queues.Queue2.Enqueue | DS-Algo.playground/Contents.swift:74-76 | the element joins the back of the contents; `head` is unchanged; the invariant is kept |
| Queues.Queue2.Dequeue | DS-Algo.playground/Contents.swift:78-91 | the new fields and the result are those of `DequeueStep`; None on an empty queue, otherwise the earliest element, and the contents lose exactly it |
| Queues.DequeueIsFifo | DS-Algo.playground/Contents.swift:78-91 | `DequeueStep` keeps the invariant (empty slots below `head`, present slots from it) and is a FIFO step on the contents |
| Queues.CompactionKeepsContents | DS-Algo.playground/Contents.swift:84-88 | dropping the consumed prefix and resetting `head` to 0 keeps the invariant and the contents |
| Queues.CompactionFiresExactly | DS-Algo.playground/Contents.swift:84-88 | compaction happens exactly when more than 50 elements remain and `head / array.count > 0.25` after the advance; otherwise the array keeps its length and only the head slot is cleared |
| Queues.CompactionExample | DS-Algo.playground/Contents.swift:84-88 | an 80-slot array with 20 consumed slots is compacted to 59 slots by the next dequeue |
| Queues.Queue2.Front | DS-Algo.playground/Contents.swift:93-95 | on a non-empty queue, the earliest element |
| Queues.EmptyFrontOutOfRange | DS-Algo.playground/Contents.swift:93-95 | the read `array[head]` is out of range exactly when the queue is empty |
| Queues.Queue2.FrontOrNone | DS-Algo.playground/Contents.swift:93-95 | corrected `front`: None exactly on an empty queue, otherwise the earliest element |
| LinkedLists.Node.constructor | DS-Algo.playground/Contents.swift:101-108 | a new node holds the value and has no links |
| LinkedLists.LinkedList.constructor | DS-Algo.playground/Contents.swift:110-112 | a new list has no nodes |
| LinkedLists.LinkedList.IsEmpty | DS-Algo.playground/Contents.swift:114-116 | `head == nil` exactly when the list holds no values |
| LinkedLists.LinkedList.First | DS-Algo.playground/Contents.swift:118-120 | nil exactly on an empty list, otherwise the first node, holding the first value |
| LinkedLists.LinkedList.Last | DS-Algo.playground/Contents.swift:122-130 | walking `next` from `head` ends at the last node of the chain, or gives nil on an empty list |
| LinkedLists.LinkedList.Count | DS-Algo.playground/Contents.swift:143-153 | walking `next` from `head` counts exactly the nodes of the chain |
| LinkedLists.LinkedList.Append | DS-Algo.playground/Contents.swift:132-141 | a fresh node is linked after the last node (or becomes `head`); the values gain the new value at the end; the list stays well linked |
| LinkedLists.LinkedList.NodeAt | DS-Algo.playground/Contents.swift:155-169 | nil on an empty list, otherwise the node at position `atIndex` |
| LinkedLists.LinkedList.Insert | DS-Algo.playground/Contents.swift:171-187 | the node is spliced in at position `atIndex` and its value is inserted there; on an empty list with `atIndex != 0` the node's links are cleared and the list is unchanged |
| LinkedLists.LinkedList.LinkFirst | DS-Algo.playground/Contents.swift:173-177 | the node becomes `head`, linked before the old first node |
| LinkedLists.LinkedList.LinkAfter | DS-Algo.playground/Contents.swift:179-186 | the node is linked between its predecessor and that node's old successor |
| LinkedLists.LinkedList.SpliceIn | DS-Algo.playground/Contents.swift:179-186 | once both neighbours are linked, the chain with the new node at `atIndex` is well linked |
| LinkedLists.LinkedList.RemoveAll | DS-Algo.playground/Contents.swift:189-191 | the list becomes empty |
| LinkedLists.LinkedList.Remove | DS-Algo.playground/Contents.swift:193-208 | the node leaves the chain at its position, and so does its value; its links are cleared and its value is returned; `head` moves on when the node was first |
| LinkedLists.NextLinksAfterRemove | DS-Algo.playground/Contents.swift:197-202 | after `prev.next = next`, the `next` links follow the chain without the removed node |
| LinkedLists.PreviousLinksAfterRemove | DS-Algo.playground/Contents.swift:204 | after `next.previous = prev`, the `previous` links follow the chain without the removed node |
| LinkedLists.LinkedList.SpliceOut | DS-Algo.playground/Contents.swift:193-206 | once the neighbours are linked to each other, the chain without the node is well linked |
| LinkedLists.LinkedList.Reverse | DS-Algo.playground/Contents.swift:210-218 | swapping every node's links in one pass from `head` reverses the chain and the values; the list stays well linked |
| LinkedLists.LinkedList.ReverseLinks | DS-Algo.playground/Contents.swift:210-218 | when every link is swapped and `head` is the former last node, the reversed chain is well linked |
| LinkedLists.ReversedAt | DS-Algo.playground/Contents.swift:210-218 | reversal puts element `k` of a chain at position `n - 1 - k` |
| LinkedLists.ReversedTwice | DS-Algo.playground/Contents.swift:210-218 | reversing twice restores the order |
| LinkedLists.ValuesOfReversed | DS-Algo.playground/Contents.swift:210-218 | the values of the reversed chain are the reversed values |
| LinkedLists.ReverseTwice | DS-Algo.playground/Contents.swift:210-218 | calling `reverse` twice restores the nodes and the values |
| LinkedLists.ValuesOfInsertAt | DS-Algo.playground/Contents.swift:171-187 | inserting a node inserts its value at the same position |
| LinkedLists.ValuesOfRemoveAt | DS-Algo.playground/Contents.swift:193-208 | removing a node removes its value from the same position |
| LinkedLists.RemoveAfterInsert | DS-Algo.playground/Contents.swift:171-208 | a node inserted at `k` is found at `k`, and removing it gives back the chain |
| LinkedLists.InsertThenRemove | DS-Algo.playground/Contents.swift:171-208 | `insert` followed by `remove` of the same new node restores the nodes and the values |
| Searching.BinarySearch | DS-Algo.playground/Contents.swift:222-237 | a found index lies in the range and holds the key; on a sorted range, None means the key is absent |
| Searching.NotFoundIffAbsent | DS-Algo.playground/Contents.swift:222-237 | on a sorted range the search returns None exactly when the key does not occur in the range |
| Searching.SearchExamples | DS-Algo.playground/Contents.swift:222-237 | 7 is found at index 3 of `[1, 3, 5, 7, 9]`, and 4 is not found |
| Sorting.CompareSwap | DS-Algo.playground/Contents.swift:245-247 | one step keeps the elements, leaves `a[i] <= a[j]` and never raises `a[i]` |
| Sorting.InnerPass | DS-Algo.playground/Contents.swift:244-248 | an inner loop keeps the elements and leaves at `i` a value no larger than any visited position; positions before `j` other than `i` are untouched |
| Sorting.OuterPasses | DS-Algo.playground/Contents.swift:243-249 | the outer passes keep the elements, and passes from 1 on never touch index 0 |
| Sorting.InsertionSort | DS-Algo.playground/Contents.swift:241-251 | the nested loops compute `DoubleScan`: a permutation of the input whose first element is its minimum |
| Sorting.DoubleScanFrontIsMinimum | DS-Algo.playground/Contents.swift:241-251 | the first element of the result is the minimum of the input |
| Sorting.DoubleScanDoesNotSort | DS-Algo.playground/Contents.swift:241-251 | `[1, 2, 3]` comes back as `[1, 3, 2]`, which is not sorted |
| Sorting.ExchangePassesSort | DS-Algo.playground/Contents.swift:243-249 | with the inner loop starting at `i + 1`, once a prefix is sorted and below the rest, the remaining passes sort the whole sequence |
| Sorting.ExchangeSortSorts | DS-Algo.playground/Contents.swift:241-251 | the corrected scan returns a sorted permutation of its input |
| Sorting.ExchangeSort | DS-Algo.playground/Contents.swift:241-251 | the corrected loops return a sorted permutation of the input |

## Left out

- `import UIKit` and the playground's complexity comments are not modelled.
- Automatic reference counting and the `weak` qualifier of `previous` are not modelled. Nodes that leave
  a list are simply no longer in `nodes`; nothing is deallocated.
- Swift's 64-bit `Int` is modelled as an unbounded integer. No counter or index of these structures can
  reach 2^63.
- Queues.ShouldCompact: the test `Double(head) / Double(array.count) > 0.25` is modelled as the integer
  test `4 * head > array.count`. The two agree while the array has fewer than 2^53 slots.
- `binarySearch` is generic over `Comparable`, and `insertionSort` works on `[Int]`. Both are modelled on
  `int`.
- `Stack`, `Queue` and `Queue2` are Swift structs, copied on assignment. The model makes them classes, so
  two references can share one stack or queue; value semantics (copy on assignment) is not modelled.
- `LinkedListNode.value` is a `let` in the model (a Dafny `const`), because no operation of the list
  writes it.
- The list's footprint is the ghost sequence `nodes`, not a set of objects. Its order is the order of the
  `next` links.
- Queues.Queue2.Front: requires a non-empty queue, because `array[head]` traps on an empty one (see Findings).
- LinkedLists.LinkedList.NodeAt: requires `0 <= atIndex < count` on a non-empty list. Outside that range
  the force-unwraps `node.next!` or the range `1..<atIndex` trap.
- LinkedLists.LinkedList.Insert: requires `0 <= atIndex <= count` on a non-empty list, where the lookup of
  the predecessor traps otherwise.
- LinkedLists.LinkedList.Insert: also requires a node that is not already in the list and that, at index 0,
  has no `previous` link. The source accepts any node, but it then builds a cycle or keeps a stale back link.
- LinkedLists.LinkedList.Remove: requires a node of this list. With a foreign node the source rewrites this
  list's `head` or another list's links.
- Searching.BinarySearch: requires a well-formed range that lies inside the array when it is not empty.
  The source traps only when the search reaches a midpoint outside the array, which depends on the key
  and the contents, so some calls with a range reaching past the array return normally; the model does
  not cover those calls.
- Queues.DequeueStep: models the `let element = array[head]` guard's nil case, although the queue's
  invariant makes it unreachable.

## Findings

| source | as written | input that shows it | evidently intended | confidence | as-written member | corrected member |
|---|---|---|---|---|---|---|
| DS-Algo.playground/Contents.swift:244 | the inner loop `for j in 1..<count` also compares position `i` with positions before it and swaps them back out of order | `insertionSort([1, 2, 3])` returns `[1, 3, 2]` | the inner loop starts at `i + 1`, so the result is the input sorted ascending | not executed | Sorting.DoubleScanDoesNotSort | Sorting.ExchangeSort |
| DS-Algo.playground/Contents.swift:93-95 | `front` reads `array[head]` with no emptiness check | `Queue2<Int>().front`: `head == 0 == array.count`, an out-of-range read that traps | `front` returns nil on an empty queue, as its type `T?` suggests | not executed | Queues.EmptyFrontOutOfRange | Queues.Queue2.FrontOrNone |
