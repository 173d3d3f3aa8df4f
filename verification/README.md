# LinkedList of memory blocks — a Dafny model

This project models `LinkedList`, a singly-linked list of `MemoryBlock` payloads used by a
memory-management simulator. The list caches a reference to its first node, a reference to its
last node and its size. It supports positional lookup (`getNode`, `getBlock`), lookup by
identity (`indexOf`), insertion at an index and at either end (`add`, `addFirst`, `addLast`),
three removals (by node, by index, by block) and an in-place bubble sort on base addresses
that swaps payloads between nodes.

The list is a value of `LinkedLists.LinkedList`:

- `chain` is the sequence of nodes reachable from `first`, in order. A node's successor is the
  node at the next position, and the position just past the tail stands for null.
- `first`, `last` and `size` are the three cached fields. Every operation updates them the way
  the Java code does, including its `if (size == 1) last = first` fix-ups. The one exception
  is the corrected pair `RemoveBlock` and `RemoveAt`. They take the tail branch of
  `remove(MemoryBlock)` when the node found is the tail node. `RemoveBlockAsWritten` and
  `RemoveAtAsWritten` keep the source's test (see "## Findings").
- `Valid` is the representation invariant that ties the cached fields to the chain.

Node objects are identified by a `NodeRef`. The list hands out identities in increasing order
from its `nextRef` field and never reuses one, as Java's `new` never returns an object that
already exists; so a handle to a removed node never designates a node created later. A `MemoryBlock` carries a `tag` that stands for its
object identity, so Java's reference `==` between blocks becomes value equality. Exceptions
become `Failure(IllegalArgument)` or `Failure(NullPointer)` in a `Result`. The operations are
pure functions from the old list to the new one. `Sort` is a method with the source's loops.

Files:

- `outcomes.dfy`: `Option`, `Result` and `Error`.
- `memory_block.dfy`: `MemoryBlock` and address order.
- `linked_list.dfy`: the list, its invariant and every operation.
- `list_properties.dfy`: lemmas that relate several operations.
- `remove_block_tail_test.dfy`: the defect in the tail test of `remove(MemoryBlock)`, which
  `remove(int)` inherits.

Two behaviours are modelled exactly as the code has them:

- `indexOf` and `remove(MemoryBlock)` compare blocks by identity (`==`). The `.equals` call at
  line 278 is read the same way.
- `remove(int)` accepts `index == size` when the list has at most one node, although its doc
  comment (line 245) excludes it. On one node, index 1 empties the list.

## Model

| member | source | states |
|---|---|---|
| LinkedLists.New | LinkedList.java:13-17 | the new list is empty and satisfies the representation invariant |
| LinkedLists.Emptied | LinkedList.java:203-205 | clearing first, last and size gives a valid empty list that keeps the identities already handed out |
| LinkedLists.GetFirst | LinkedList.java:23-25 | null exactly when the list is empty, otherwise the head node of the chain |
| LinkedLists.GetLast | LinkedList.java:31-33 | null exactly when the list is empty, otherwise the tail node of the chain |
| LinkedLists.GetSize | LinkedList.java:39-41 | the number of blocks in the list |
| LinkedLists.Advance | LinkedList.java:57-63 | following successor links from a position stops at null: it reaches pos + steps, or null if that is past the tail |
| LinkedLists.GetNode | LinkedList.java:52-65 | throws IllegalArgument exactly for index < 0 or index > size; otherwise gives the node at index, or null at index == size; a node it returns belongs to the list |
| LinkedLists.GetBlock | LinkedList.java:160-170 | throws IllegalArgument exactly for a negative index, an index past the tail, or an empty list; otherwise gives the index-th block |
| LinkedLists.IndexFrom | LinkedList.java:181-187 | the scan returns the first position at or after i that holds the block, or -1 exactly when no such position exists |
| LinkedLists.IndexOf | LinkedList.java:179-188 | -1 exactly when the block is absent; otherwise the smallest position holding that very block |
| LinkedLists.FreshRef | LinkedList.java:117 | a newly created node's identity differs from every node in the chain and exceeds them all, so it differs from every node the list ever held |
| LinkedLists.AddFirst | LinkedList.java:135-149 | the list stays valid and grows by one; a new node holding the block becomes first; the old chain follows it unchanged |
| LinkedLists.AddLast | LinkedList.java:116-126 | the list stays valid and grows by one; a new node holding the block becomes last; the old chain precedes it unchanged |
| LinkedLists.Add | LinkedList.java:86-107 | throws IllegalArgument exactly when index < 0 or index > size; otherwise the list stays valid and grows by one; a new node holding the block is at index; nodes before index keep their positions and the rest shift up by one; index 0 makes it first and index size makes it last; the new node's identity is the next one handed out |
| LinkedLists.InsertAfter | LinkedList.java:97-104 | linking a new node after position p keeps the invariant; the new node, with the next identity, sits between p and its old successor |
| LinkedLists.UnlinkFirst | LinkedList.java:207-212 | dropping the head of a list of two or more keeps the invariant and leaves the rest of the chain |
| LinkedLists.CutAfter | LinkedList.java:216-223 | cutting the chain after position p lowers size by one, keeps first, and makes last the node at p, the new end of the chain; when p is the tail's predecessor the result is the list without its tail and is valid |
| LinkedLists.SkipAfter | LinkedList.java:225-231 | splicing out the successor of p keeps the invariant and keeps every other node in order |
| LinkedLists.PredecessorOfNode | LinkedList.java:214-234 | the walk stops at the position whose successor is the given node, and passes no earlier occurrence of it |
| LinkedLists.RemoveNode | LinkedList.java:196-238 | a null node throws NullPointer; a node that is not in the list, such as one removed earlier, leaves the list unchanged; otherwise exactly that node is unlinked, size drops by one and the invariant holds, so first advances, last retreats and a one-node list becomes empty |
| LinkedLists.PredecessorOfBlock | LinkedList.java:292-311 | the loop stops at the position whose successor holds the block, and passes no earlier occurrence of it |
| LinkedLists.RemoveHead | LinkedList.java:278-290 | the head branches of remove(MemoryBlock): a one-node list becomes empty, a longer one loses its head; either way the list stays valid, size drops by one and the rest of the chain is kept |
| LinkedLists.UnlinkSuccessor | LinkedList.java:293-308 | the two loop branches at position p: the cut keeps exactly the nodes up to p, the splice drops only the successor of p; size drops by one either way, and the result is valid for the splice and for a cut before the tail |
| LinkedLists.HeadHoldsFirstOccurrence | LinkedList.java:278-284 | the block test against the head holds exactly when the first occurrence of the block is at position 0 |
| LinkedLists.PredecessorOfFirstOccurrence | LinkedList.java:292-311 | for a first occurrence past the head, the loop stops at the node right before it |
| LinkedLists.UnlinkFirstOccurrence | LinkedList.java:292-311 | with the corrected tail test, the loop unlinks exactly the first occurrence of the block and keeps the invariant |
| LinkedLists.TailTestsAgree | LinkedList.java:293 | for an interior first occurrence, testing the tail's block and testing the tail node agree unless the block test misfires |
| LinkedLists.UnlinkFirstOccurrenceAsWritten | LinkedList.java:292-311 | the loop as the source writes it lowers size by one and, unless its tail test misfires, is the corrected loop |
| LinkedLists.RemoveBlock | LinkedList.java:270-312 | corrected removal (tail test on the node): a null or absent block throws IllegalArgument; otherwise the first occurrence is removed, size drops by one, the invariant holds and every other node keeps its relative order |
| LinkedLists.RemoveBlockAsWritten | LinkedList.java:270-312 | the source's removal, with its tail test on blocks: a null or absent block throws IllegalArgument; otherwise size drops by one; wherever the tail test does not misfire it equals the corrected removal |
| LinkedLists.RemoveAt | LinkedList.java:247-261 | corrected removal by index: throws IllegalArgument exactly when index < 0 or index > size; an empty list is unchanged; a one-node list becomes empty; otherwise the list stays valid and the first occurrence of the block at index is removed, which is the node at index itself when its block does not occur earlier |
| LinkedLists.FirstOccurrenceAt | LinkedList.java:258 | the first occurrence of the block at index is at or before index, and is index itself exactly when the block does not occur earlier |
| LinkedLists.RemoveAtAsWritten | LinkedList.java:247-261 | the source's removal by index, through getBlock and the as-written removal by block: throws IllegalArgument exactly when index < 0 or index > size; an empty list is unchanged; a one-node list becomes empty; size drops by one; when the block at index occurs nowhere else exactly the node at index goes and the list stays valid; wherever the tail test does not misfire it equals the corrected removal |
| LinkedLists.SwapPayloadsKeepsContents | LinkedList.java:340-342 | swapping two adjacent payloads keeps every node at its position and keeps the multiset of blocks |
| LinkedLists.SwapPayloads | LinkedList.java:340-342 | the blocks at j and j + 1 are exchanged, every node stays at its position, and every other position is untouched |
| LinkedLists.BubblePass | LinkedList.java:336-344 | one inner pass keeps node positions, the blocks' multiset and everything past the pass; afterwards the largest address of the prefix is at its end |
| LinkedLists.PassExtendsSortedSuffix | LinkedList.java:335-345 | after a pass, the sorted suffix grows by one position and stays above everything before it |
| LinkedLists.SortedPrefixSplit | LinkedList.java:335 | when the last outer pass ends, the sorted suffix from position 1 together with the split makes the whole list address-sorted |
| LinkedLists.SameNodesKeepValid | LinkedList.java:340-342 | moving payloads between nodes without moving the nodes keeps first, last and size correct |
| LinkedLists.Sort | LinkedList.java:334-346 | first, last, size and every node's position are unchanged; the blocks are a permutation of the original ones, with base addresses non-decreasing |
| ListProperties.ValidDeterminedByChain | LinkedList.java:6-8 | first, last and size are determined by the chain: two valid lists with the same chain agree on them, and are equal once they have handed out the same identities |
| ListProperties.AddFirstThenRemoveFirst | LinkedList.java:247-261 | addFirst followed by the source's remove(0) gives back the original list; only the identity the removed node had stays used |
| ListProperties.AddThenGetBlock | LinkedList.java:86-107 | after add(index, b) succeeds, getBlock(index) returns b |
| ListProperties.RemoveNodeAtIndex | LinkedList.java:52-65 | remove(getNode(index)) unlinks exactly the node at index, whatever blocks other nodes hold |
| ListProperties.AddThenRemoveNode | LinkedList.java:196-238 | removing getNode(index) right after add(index, b) gives back the original list; only the identity the removed node had stays used |
| ListProperties.RemoveInsertedNode | LinkedList.java:196-238 | removing by identity the one node inserted into a list gives back that list |
| ListProperties.RemovedNodeIsGone | LinkedList.java:196-238 | after remove(node) no node of the list is that node, and the next identity handed out is above it |
| ListProperties.AbsentStaysAbsent | LinkedList.java:116-126 | addLast never brings back a node that was handed out earlier and is no longer in the list |
| ListProperties.StaleHandleIsNotFound | LinkedList.java:214-234 | after remove(node) and addLast(c), removing the stale handle again is not found by the walk and leaves the list unchanged |
| ListProperties.RemoveAtAgreesWithRemoveNode | LinkedList.java:258 | with the corrected tail test, remove(index) and remove(getNode(index)) have the same effect exactly when the block at index does not occur earlier in the list |
| ListProperties.RemoveAtAsWrittenAgreesWithRemoveNode | LinkedList.java:258 | as the source is written, remove(index) and remove(getNode(index)) have the same effect exactly when the block at index does not occur earlier and the tail test does not misfire on it |
| RemoveBlockTailTest.AsWrittenTruncates | LinkedList.java:293-300 | if a block's first occurrence is interior and the block is also the tail's, the as-written removal keeps only the nodes before that occurrence, reports one node fewer and breaks the invariant; the corrected removal drops only that occurrence |
| RemoveBlockTailTest.TruncationExample | LinkedList.java:293-300 | on [A, X, B, X], the as-written remove(X) leaves [A] with size 3, and the corrected one leaves [A, B, X] |
| RemoveBlockTailTest.RemoveAtTruncationExample | LinkedList.java:258 | on [A, X, B, X], the source's remove(1) and remove(3) both leave [A] with size 3, and the corrected remove(1) and remove(3) both leave [A, B, X] |

## Left out

- `toString` (LinkedList.java:324-332) is a debug rendering built on `MemoryBlock.toString`. That method is not part of this model.
- `iterator()` (LinkedList.java:317-319) returns a `ListIterator`. `ListIterator` is not part of this model.
- The raw pointer heap is not modelled. Successor links are chain positions.
- The self-loop is left out. `addFirst` on an empty list sets the new node's `next` to itself (LinkedList.java:137-140). Lines 145-147 never fire as a result.
- LinkedLists.GetNode: returns null for `index == size`. In the source, a tail node created by `addFirst` on an empty list keeps its self-loop, so there the source returns the tail instead.
- LinkedLists.GetBlock: `index == size` on a non-empty list is a precondition violation. The source's guard (line 161) lets it through. The walk then steps past the tail. It throws NullPointerException, or returns the tail's block when the tail still links to itself after `addFirst`.
- LinkedLists.RemoveAt: `index == size` on two or more nodes is a precondition violation, for the same reason. The call goes through `getBlock` (line 258). It throws NullPointerException, or, when the tail still links to itself, calls `remove(MemoryBlock)` on the tail's block. That removes the first occurrence of the block, which need not be the tail, and can meet the tail-test defect of line 293.
- LinkedLists.RemoveAtAsWritten: the same `index == size` call is excluded, as for RemoveAt.
- LinkedLists.RemoveNode: a node that is not in the list leaves it unchanged, because the walk reaches the tail. With the left-out self-loop at the tail, the source's walk would instead not terminate.
- Node identities are handed out per list. A node taken from a different list is not modelled.
- The dead test `if (this.first == null) return;` in `remove(MemoryBlock)` (lines 275-277) is omitted. It follows a successful `indexOf`, so the list cannot be empty there.
- `block.equals(first.block)` (line 278) is taken as identity, like the surrounding `==` tests. `MemoryBlock.equals` is not part of this model.
- `size` is a 32-bit `int` in the source. The model's size is unbounded, since the list never holds 2^31 nodes in practice.
- `add` stores a null block if given one. The model's stored blocks are never null. Only `remove(MemoryBlock)` takes a possibly-null block, because it tests for null itself.
- `new Node(block)` allocates a fresh object. The model takes the list's next identity; objects allocated elsewhere in the program do not consume identities.
- `sort` calls `getNode(j)` for each comparison (line 337). The model reads position `j` directly; `getNode` itself is modelled separately.
- The O(1) cost of `addFirst` and `addLast` is a complexity claim, which the verifier does not state.

## Findings

| source | as written | input that shows it | evidently intended | confidence | as-written member | corrected member |
|---|---|---|---|---|---|---|
| LinkedList.java:293 | the tail branch of `remove(MemoryBlock)` runs when `block == this.last.block`, then sets `current.next = null` | list [A, X, B, X] holding block X twice, then `remove(X)`: the chain becomes [A] while `size` becomes 3 | take the tail branch only when the node found is the last node (`current.next == this.last`), leaving [A, B, X] | high, not executed | RemoveBlockTailTest.AsWrittenTruncates | LinkedLists.RemoveBlock |
| LinkedList.java:258 | `remove(int)` calls `remove(getBlock(index))`, so it inherits the tail test of line 293 | list [A, X, B, X], then `remove(1)` or `remove(3)`: the chain becomes [A] while `size` becomes 3 | take the tail branch only for the tail node, as for line 293: `remove(1)` then leaves [A, B, X]; `remove(3)` also leaves [A, B, X], because line 258 still removes the first occurrence of the block at index, where the doc comment (line 241) promises the node at index, [A, X, B]; the correction keeps that first-occurrence rule | high, not executed | RemoveBlockTailTest.RemoveAtTruncationExample | LinkedLists.RemoveAt |
