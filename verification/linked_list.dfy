/** A singly-linked list of memory blocks that caches its first node, its last node and its
    size. The chain of nodes reachable from `first` is a sequence; a node's successor is the
    node at the next position, and position |chain| stands for null. */
module LinkedLists {
  import opened Outcomes
  import opened MemoryBlocks

  /** The identity of a node object. */
  type NodeRef = nat

  /** A node: its identity and the block it currently points to. */
  datatype Node = Node(ref: NodeRef, block: MemoryBlock)

  /** The list object: the chain reachable from `first`, the three cached fields, and
      `nextRef`, the identity the next `new Node` receives. Identities are handed out in
      increasing order and never reused, as Java's `new` never returns an object that already
      exists: a node removed earlier is never mistaken for one created later. */
  datatype LinkedList = LinkedList(chain: seq<Node>, first: Option<NodeRef>, last: Option<NodeRef>, size: int, nextRef: NodeRef)

  function BlocksOf(chain: seq<Node>): seq<MemoryBlock> {
    seq(|chain|, i requires 0 <= i < |chain| => chain[i].block)
  }

  function RefsOf(chain: seq<Node>): seq<NodeRef> {
    seq(|chain|, i requires 0 <= i < |chain| => chain[i].ref)
  }

  /** The blocks of the list, in chain order. */
  function Blocks(l: LinkedList): seq<MemoryBlock> {
    BlocksOf(l.chain)
  }

  /** No node object occurs twice in the chain. */
  predicate DistinctRefs(chain: seq<Node>) {
    forall i, j :: 0 <= i < j < |chain| ==> chain[i].ref != chain[j].ref
  }

  /** The representation invariant: `size` counts the chain, `first` and `last` are its head
      and tail, both are null exactly when the list is empty, and every node was created
      before `nextRef` was handed out. */
  predicate Valid(l: LinkedList) {
    && l.size == |l.chain|
    && DistinctRefs(l.chain)
    && (forall k :: 0 <= k < |l.chain| ==> l.chain[k].ref < l.nextRef)
    && (|l.chain| == 0 ==> l.first.None? && l.last.None?)
    && (|l.chain| > 0 ==> l.first == Some(l.chain[0].ref) && l.last == Some(l.chain[|l.chain| - 1].ref))
  }

  /** The constructor: an empty list. */
  function New(): (l: LinkedList)
    ensures Valid(l) && Blocks(l) == []
  {
    LinkedList([], None, None, 0, 0)
  }

  /** The list with `first`, `last` and `size` cleared; node identities already handed out
      stay used. */
  function Emptied(l: LinkedList): (r: LinkedList)
    ensures Valid(r) && r.chain == [] && r.nextRef == l.nextRef
  {
    LinkedList([], None, None, 0, l.nextRef)
  }

  function GetFirst(l: LinkedList): (r: Option<NodeRef>)
    requires Valid(l)
    ensures r.None? <==> Blocks(l) == []
    ensures r.Some? ==> |l.chain| > 0 && r.value == l.chain[0].ref
  {
    l.first
  }

  function GetLast(l: LinkedList): (r: Option<NodeRef>)
    requires Valid(l)
    ensures r.None? <==> Blocks(l) == []
    ensures r.Some? ==> |l.chain| > 0 && r.value == l.chain[|l.chain| - 1].ref
  {
    l.last
  }

  function GetSize(l: LinkedList): (r: int)
    requires Valid(l)
    ensures r == |Blocks(l)|
  {
    l.size
  }

  /** Follows at most `steps` successor links from position `pos`, stopping at null. */
  function Advance(chain: seq<Node>, pos: nat, steps: nat): (p: nat)
    requires pos <= |chain|
    ensures p == if pos + steps <= |chain| then pos + steps else |chain|
    decreases steps
  {
    if steps == 0 || pos == |chain| then pos else Advance(chain, pos + 1, steps - 1)
  }

  /** The reference held at position `p`: null past the tail. */
  function RefAt(chain: seq<Node>, p: nat): Option<NodeRef>
    requires p <= |chain|
  {
    if p == |chain| then None else Some(chain[p].ref)
  }

  /** getNode: the node at `index`, or null when `index` is the size. */
  function GetNode(l: LinkedList, index: int): (r: Result<Option<NodeRef>>)
    requires Valid(l)
    ensures r.Failure? <==> index < 0 || index > l.size
    ensures r.Failure? ==> r.error == IllegalArgument
    ensures r.Success? && index < l.size ==> r.value == Some(l.chain[index].ref)
    ensures r.Success? && index == l.size ==> r.value.None?
    ensures r.Success? && r.value.Some? ==> r.value.value in RefsOf(l.chain)
  {
    if index < 0 || index > l.size then Failure(IllegalArgument)
    else
      assert index < l.size ==> RefsOf(l.chain)[index] == l.chain[index].ref;
      Success(RefAt(l.chain, Advance(l.chain, 0, index)))
  }

  /** getBlock: the block at `index`. The source's guard lets `index == size` through on a
      non-empty list; the walk then steps past the tail, which throws NullPointerException or,
      when the tail still links to itself after addFirst, returns the tail's block. That call
      is excluded. */
  function GetBlock(l: LinkedList, index: int): (r: Result<MemoryBlock>)
    requires Valid(l)
    requires index != l.size || l.size == 0
    ensures r.Failure? <==> index < 0 || index >= |Blocks(l)|
    ensures r.Failure? ==> r.error == IllegalArgument
    ensures r.Success? ==> 0 <= index < |Blocks(l)| && r.value == Blocks(l)[index]
  {
    if index < 0 || index > l.size || l.first.None? then Failure(IllegalArgument)
    else Success(l.chain[Advance(l.chain, 0, index)].block)
  }

  /** The scan of indexOf from position `i` on, comparing blocks by identity. */
  function IndexFrom(chain: seq<Node>, b: MemoryBlock, i: nat): (r: int)
    requires i <= |chain|
    ensures r == -1 || i <= r < |chain|
    ensures r == -1 <==> forall k :: i <= k < |chain| ==> chain[k].block != b
    ensures r >= 0 ==> chain[r].block == b && forall k :: i <= k < r ==> chain[k].block != b
    decreases |chain| - i
  {
    if i == |chain| then -1
    else if chain[i].block == b then i
    else IndexFrom(chain, b, i + 1)
  }

  /** indexOf: the position of the first occurrence of `b`, or -1 when `b` is absent. */
  function IndexOf(l: LinkedList, b: MemoryBlock): (r: int)
    requires Valid(l)
    ensures -1 <= r < |Blocks(l)|
    ensures r == -1 <==> b !in Blocks(l)
    ensures r >= 0 ==> Blocks(l)[r] == b && forall k :: 0 <= k < r ==> Blocks(l)[k] != b
  {
    assert forall k :: 0 <= k < |l.chain| ==> Blocks(l)[k] == l.chain[k].block;
    IndexFrom(l.chain, b, 0)
  }

  /** `new Node(block)`: the next identity, which no node of the list has, and which no node
      the list held earlier had either, since every identity handed out is below `nextRef`. */
  function FreshRef(l: LinkedList): (r: NodeRef)
    requires Valid(l)
    ensures r !in RefsOf(l.chain)
    ensures forall k :: 0 <= k < |l.chain| ==> l.chain[k].ref < r
  {
    l.nextRef
  }

  /** addFirst: a new node holding `b` becomes the first node. */
  function AddFirst(l: LinkedList, b: MemoryBlock): (r: LinkedList)
    requires Valid(l)
    ensures Valid(r) && r.size == l.size + 1
    ensures r.chain[0].block == b && r.chain[0].ref !in RefsOf(l.chain)
    ensures r.chain[0].ref == l.nextRef && r.nextRef == l.nextRef + 1
    ensures r.chain[1..] == l.chain
    ensures r.first == Some(r.chain[0].ref)
  {
    var n := Node(FreshRef(l), b);
    if l.first.None? then LinkedList([n], Some(n.ref), Some(n.ref), l.size + 1, l.nextRef + 1)
    else LinkedList([n] + l.chain, Some(n.ref), l.last, l.size + 1, l.nextRef + 1)
  }

  /** addLast: a new node holding `b` becomes the last node. */
  function AddLast(l: LinkedList, b: MemoryBlock): (r: LinkedList)
    requires Valid(l)
    ensures Valid(r) && r.size == l.size + 1
    ensures r.chain[l.size].block == b && r.chain[l.size].ref !in RefsOf(l.chain)
    ensures r.chain[l.size].ref == l.nextRef && r.nextRef == l.nextRef + 1
    ensures r.chain[..l.size] == l.chain
    ensures r.last == Some(r.chain[l.size].ref)
  {
    var n := Node(FreshRef(l), b);
    if l.first.None? then LinkedList([n], Some(n.ref), Some(n.ref), l.size + 1, l.nextRef + 1)
    else LinkedList(l.chain + [n], l.first, Some(n.ref), l.size + 1, l.nextRef + 1)
  }

  /** add: a new node holding `b` becomes the node at `index`; the nodes before it keep their
      positions and the nodes from `index` on move up by one. */
  function Add(l: LinkedList, index: int, b: MemoryBlock): (r: Result<LinkedList>)
    requires Valid(l)
    ensures r.Failure? <==> index < 0 || index > l.size
    ensures r.Failure? ==> r.error == IllegalArgument
    ensures r.Success? ==>
      && Valid(r.value)
      && r.value.size == l.size + 1
      && r.value.chain[..index] == l.chain[..index]
      && r.value.chain[index].block == b
      && r.value.chain[index].ref !in RefsOf(l.chain)
      && r.value.chain[index].ref == l.nextRef && r.value.nextRef == l.nextRef + 1
      && r.value.chain[index + 1..] == l.chain[index..]
    ensures r.Success? && index == 0 ==> r.value.first == Some(r.value.chain[0].ref)
    ensures r.Success? && index == l.size ==> r.value.last == Some(r.value.chain[index].ref)
  {
    if index < 0 || index > l.size then Failure(IllegalArgument)
    else if index == 0 then Success(AddFirst(l, b))
    else if index == l.size then Success(AddLast(l, b))
    else
      var save := Advance(l.chain, 0, index - 1);
      Success(InsertAfter(l, save, b))
  }

  /** `newNode.next = save.next; save.next = newNode` with `save` at position `p`, for a
      successor that exists: the new node sits between them and `first` and `last` stay. */
  function InsertAfter(l: LinkedList, p: nat, b: MemoryBlock): (r: LinkedList)
    requires Valid(l) && p + 1 < |l.chain|
    ensures Valid(r) && r.nextRef == l.nextRef + 1
    ensures r.chain == l.chain[..p + 1] + [Node(l.nextRef, b)] + l.chain[p + 1..]
  {
    var n := Node(FreshRef(l), b);
    var c := l.chain[..p + 1] + [n] + l.chain[p + 1..];
    InsertedChainDistinct(l.chain, p, n, c, l.nextRef);
    LinkedList(c, l.first, l.last, l.size + 1, l.nextRef + 1)
  }

  /** Inserting a node whose identity is above every identity of a chain of distinct nodes
      keeps the nodes distinct, keeps the two ends, and keeps every identity at most that
      bound. */
  lemma InsertedChainDistinct(chain: seq<Node>, p: nat, n: Node, c: seq<Node>, bound: NodeRef)
    requires DistinctRefs(chain) && p + 1 < |chain|
    requires forall k :: 0 <= k < |chain| ==> chain[k].ref < bound
    requires n.ref == bound && c == chain[..p + 1] + [n] + chain[p + 1..]
    ensures DistinctRefs(c) && |c| == |chain| + 1
    ensures forall k :: 0 <= k < |c| ==> c[k].ref < bound + 1
    ensures c[0] == chain[0] && c[|c| - 1] == chain[|chain| - 1]
  {
    assert forall k :: 0 <= k < |c| ==> c[k] == if k <= p then chain[k] else if k == p + 1 then n else chain[k - 1];
  }

  /** Removing the head of a list of two or more: `first` moves to its successor, and `last`
      is reset to `first` when one node remains. */
  function UnlinkFirst(l: LinkedList): (r: LinkedList)
    requires Valid(l) && l.size >= 2
    ensures Valid(r) && r.chain == l.chain[1..] && r.nextRef == l.nextRef
  {
    var size := l.size - 1;
    var first := Some(l.chain[1].ref);
    LinkedList(l.chain[1..], first, if size == 1 then first else l.last, size, l.nextRef)
  }

  /** `current.next = null` with `current` at position `p`: the chain ends at `p`, `last`
      becomes `current` (or `first` when one node remains) and `size` drops by one. */
  function CutAfter(l: LinkedList, p: nat): (r: LinkedList)
    requires Valid(l) && p + 1 < |l.chain|
    ensures r.chain == l.chain[..p + 1] && r.size == l.size - 1 && r.nextRef == l.nextRef
    ensures r.first == l.first && r.last == Some(r.chain[p].ref)
    ensures p + 2 == |l.chain| ==> Valid(r)
  {
    var size := l.size - 1;
    LinkedList(l.chain[..p + 1], l.first, if size == 1 then l.first else Some(l.chain[p].ref), size, l.nextRef)
  }

  /** `current.next = current.next.next` with `current` at position `p`, for a successor that
      is not the tail. */
  function SkipAfter(l: LinkedList, p: nat): (r: LinkedList)
    requires Valid(l) && p + 2 < |l.chain|
    ensures Valid(r) && r.chain == l.chain[..p + 1] + l.chain[p + 2..] && r.nextRef == l.nextRef
  {
    var size := l.size - 1;
    LinkedList(l.chain[..p + 1] + l.chain[p + 2..], l.first, if size == 1 then l.first else l.last, size, l.nextRef)
  }

  /** The walk of remove(Node): from the node at `p`, follow successors until the successor is
      `x` or there is none. The walk stops at the tail exactly when no later node is `x`. */
  function PredecessorOfNode(chain: seq<Node>, x: NodeRef, p: nat): (q: nat)
    requires p < |chain|
    ensures p <= q < |chain|
    ensures q + 1 < |chain| ==> chain[q + 1].ref == x
    ensures forall k :: p < k <= q ==> chain[k].ref != x
    ensures q + 1 == |chain| <==> forall k :: p < k < |chain| ==> chain[k].ref != x
    decreases |chain| - p
  {
    if p + 1 == |chain| then p
    else if chain[p + 1].ref == x then p
    else PredecessorOfNode(chain, x, p + 1)
  }

  /** remove(Node): unlinks exactly the given node. A node that is not in the list, such as
      one removed earlier, is not found by the walk and leaves the list unchanged. */
  function RemoveNode(l: LinkedList, node: Option<NodeRef>): (r: Result<LinkedList>)
    requires Valid(l)
    ensures r.Failure? <==> node.None?
    ensures r.Failure? ==> r.error == NullPointer
    ensures r.Success? ==> Valid(r.value) && r.value.nextRef == l.nextRef
    ensures r.Success? && l.size == 0 ==> r.value == l
    ensures node.Some? && node.value !in RefsOf(l.chain) ==> r == Success(l)
    ensures forall k :: 0 <= k < |l.chain| && node == Some(l.chain[k].ref) ==>
      r.Success? && r.value.size == l.size - 1 && r.value.chain == l.chain[..k] + l.chain[k + 1..]
  {
    if node.None? then Failure(NullPointer)
    else if l.first.None? then Success(l)
    else
      assert RefsOf(l.chain)[0] == l.chain[0].ref;
      if l.size == 1 && node == l.first then Success(Emptied(l))
      else if node == l.first then Success(UnlinkFirst(l))
      else
        var p := PredecessorOfNode(l.chain, node.value, 0);
        if p + 1 == |l.chain| then
          // The walk reached the tail without meeting the node.
          Success(l)
        else
          assert RefsOf(l.chain)[p + 1] == node.value;
          if node == l.last then Success(CutAfter(l, p))
          else Success(SkipAfter(l, p))
  }

  /** The loop of remove(MemoryBlock): from the node at `p`, the position whose successor holds
      `b`. */
  function PredecessorOfBlock(chain: seq<Node>, b: MemoryBlock, p: nat): (q: nat)
    requires p < |chain|
    requires exists k :: p < k < |chain| && chain[k].block == b
    ensures p <= q && q + 1 < |chain| && chain[q + 1].block == b
    ensures forall k :: p < k <= q ==> chain[k].block != b
    decreases |chain| - p
  {
    if chain[p + 1].block == b then p else PredecessorOfBlock(chain, b, p + 1)
  }

  /** The head branches of remove(MemoryBlock): a one-node list is cleared, and otherwise
      `first` moves to its successor. */
  function RemoveHead(l: LinkedList): (r: LinkedList)
    requires Valid(l) && l.size >= 1
    ensures Valid(r) && r.size == l.size - 1 && r.nextRef == l.nextRef
    ensures r.chain == l.chain[1..]
  {
    if l.size == 1 then Emptied(l) else UnlinkFirst(l)
  }

  /** The two branches of the loop of remove(MemoryBlock) at the node at `p`: with `toTail`
      the chain is cut after `p` (`current.next = null`), otherwise the successor of `p` is
      spliced out. Either way `size` drops by one. The cut is a correct removal only when the
      successor is the tail. */
  function UnlinkSuccessor(l: LinkedList, p: nat, toTail: bool): (r: LinkedList)
    requires Valid(l) && p + 1 < |l.chain|
    requires toTail || p + 2 < |l.chain|
    ensures r.size == l.size - 1 && r.nextRef == l.nextRef
    ensures toTail ==> r.chain == l.chain[..p + 1]
    ensures !toTail || p + 2 == |l.chain| ==> Valid(r) && r.chain == l.chain[..p + 1] + l.chain[p + 2..]
  {
    if toTail then
      assert p + 2 == |l.chain| ==> l.chain[..p + 1] + l.chain[p + 2..] == l.chain[..p + 1];
      CutAfter(l, p)
    else SkipAfter(l, p)
  }

  /** The block test of remove(MemoryBlock) at the head holds exactly for the first
      occurrence at position 0. */
  lemma HeadHoldsFirstOccurrence(l: LinkedList, b: MemoryBlock)
    requires Valid(l) && b in Blocks(l)
    ensures |l.chain| > 0
    ensures b == l.chain[0].block <==> IndexOf(l, b) == 0
  {
    assert Blocks(l)[0] == l.chain[0].block;
  }

  /** The node at position `k` of a valid list is the `last` node exactly when `k` is the
      tail's position. */
  lemma LastIsTailPosition(l: LinkedList, k: nat)
    requires Valid(l) && k < |l.chain|
    ensures Some(l.chain[k].ref) == l.last <==> k == |l.chain| - 1
  {
  }

  /** remove(MemoryBlock) with its tail test corrected: the tail branch is taken when the node
      found is the last node. Removes the first occurrence of the block and keeps every other
      node in order. */
  function RemoveBlock(l: LinkedList, block: Option<MemoryBlock>): (r: Result<LinkedList>)
    requires Valid(l)
    ensures r.Failure? <==> block.None? || block.value !in Blocks(l)
    ensures r.Failure? ==> r.error == IllegalArgument
    ensures r.Success? ==> Valid(r.value) && r.value.size == l.size - 1 && r.value.nextRef == l.nextRef
    ensures r.Success? ==>
      var k := IndexOf(l, block.value);
      0 <= k && r.value.chain == l.chain[..k] + l.chain[k + 1..]
  {
    if block.None? || IndexOf(l, block.value) == -1 then Failure(IllegalArgument)
    else
      // The block was found, so `first` is not null here.
      var b := block.value;
      HeadHoldsFirstOccurrence(l, b);
      if b == l.chain[0].block then
        assert l.chain[..0] + l.chain[0 + 1..] == l.chain[1..];
        Success(RemoveHead(l))
      else Success(UnlinkFirstOccurrence(l, b))
  }

  /** The loop of remove(MemoryBlock) with the corrected tail test, for a first occurrence
      past the head: the walk stops before that occurrence, which is then unlinked; the cut
      is taken exactly when the node found is the last node. */
  function UnlinkFirstOccurrence(l: LinkedList, b: MemoryBlock): (r: LinkedList)
    requires Valid(l) && 0 < IndexOf(l, b)
    ensures Valid(r) && r.size == l.size - 1 && r.nextRef == l.nextRef
    ensures r.chain == l.chain[..IndexOf(l, b)] + l.chain[IndexOf(l, b) + 1..]
  {
    var p := PredecessorOfBlock(l.chain, b, 0);
    PredecessorOfFirstOccurrence(l, b);
    LastIsTailPosition(l, p + 1);
    UnlinkSuccessor(l, p, Some(l.chain[p + 1].ref) == l.last)
  }

  /** The loop of remove(MemoryBlock) as the source writes it, for a first occurrence past
      the head: the cut is taken when the block found is the tail's block. Unless that test
      misfires, this is the corrected loop. */
  function UnlinkFirstOccurrenceAsWritten(l: LinkedList, b: MemoryBlock): (r: LinkedList)
    requires Valid(l) && 0 < IndexOf(l, b)
    ensures r.size == l.size - 1 && r.nextRef == l.nextRef
    ensures !TailTestMisfires(l, b) ==> r == UnlinkFirstOccurrence(l, b)
  {
    var p := PredecessorOfBlock(l.chain, b, 0);
    PredecessorOfFirstOccurrence(l, b);
    LastIsTailPosition(l, p + 1);
    assert !TailTestMisfires(l, b) ==>
      (b == l.chain[|l.chain| - 1].block) == (Some(l.chain[p + 1].ref) == l.last) by {
      if !TailTestMisfires(l, b) {
        TailTestsAgree(l, b);
      }
    }
    UnlinkSuccessor(l, p, b == l.chain[|l.chain| - 1].block)
  }

  /** When the first occurrence of `b` is not the head, the loop of remove(MemoryBlock) stops
      right before it. */
  lemma PredecessorOfFirstOccurrence(l: LinkedList, b: MemoryBlock)
    requires Valid(l) && 0 < IndexOf(l, b)
    ensures var k := IndexOf(l, b);
      l.chain[k].block == b && PredecessorOfBlock(l.chain, b, 0) + 1 == k
  {
    var k := IndexOf(l, b);
    assert Blocks(l)[k] == l.chain[k].block;
    var p := PredecessorOfBlock(l.chain, b, 0);
    assert Blocks(l)[p + 1] == l.chain[p + 1].block;
  }

  /** The source's tail test in remove(MemoryBlock) compares the block found with the tail's
      block rather than the node found with the tail node. It takes the tail branch for a node
      that is not the tail exactly when the first occurrence of `b` is interior and `b` is also
      the tail's block. */
  predicate TailTestMisfires(l: LinkedList, b: MemoryBlock)
    requires Valid(l)
  {
    0 < IndexOf(l, b) < l.size - 1 && Blocks(l)[l.size - 1] == b
  }

  /** For an interior first occurrence, the block test and the node test of the tail agree
      unless the block test misfires. */
  lemma TailTestsAgree(l: LinkedList, b: MemoryBlock)
    requires Valid(l) && 0 < IndexOf(l, b) && !TailTestMisfires(l, b)
    ensures var k := IndexOf(l, b);
      (b == l.chain[|l.chain| - 1].block) == (Some(l.chain[k].ref) == l.last)
  {
    var k := IndexOf(l, b);
    LastIsTailPosition(l, k);
    assert Blocks(l)[|l.chain| - 1] == l.chain[|l.chain| - 1].block;
    assert Blocks(l)[k] == l.chain[k].block;
  }

  /** remove(MemoryBlock) as the source writes it, with the tail test on blocks. Outside the
      case where that test misfires it is the corrected removal. */
  function RemoveBlockAsWritten(l: LinkedList, block: Option<MemoryBlock>): (r: Result<LinkedList>)
    requires Valid(l)
    ensures r.Failure? <==> block.None? || block.value !in Blocks(l)
    ensures r.Failure? ==> r.error == IllegalArgument
    ensures r.Success? ==> r.value.size == l.size - 1 && r.value.nextRef == l.nextRef
    ensures r.Success? && !TailTestMisfires(l, block.value) ==> r == RemoveBlock(l, block)
  {
    if block.None? || IndexOf(l, block.value) == -1 then Failure(IllegalArgument)
    else
      // The block was found, so `first` is not null here.
      var b := block.value;
      HeadHoldsFirstOccurrence(l, b);
      if b == l.chain[0].block then Success(RemoveHead(l))
      else Success(UnlinkFirstOccurrenceAsWritten(l, b))
  }

  /** remove(int) with the corrected removal underneath: a one-element list becomes empty, an
      empty list is left alone, and otherwise the block at `index` is removed by identity, so
      its first occurrence goes. The source's guard lets `index == size` through; on two or
      more nodes the walk then steps past the tail, which throws NullPointerException or, when
      the tail still links to itself after addFirst, removes the first occurrence of the
      tail's block, through the tail test of remove(MemoryBlock). That call is excluded. */
  function RemoveAt(l: LinkedList, index: int): (r: Result<LinkedList>)
    requires Valid(l)
    requires index != l.size || l.size <= 1
    ensures r.Failure? <==> index < 0 || index > l.size
    ensures r.Failure? ==> r.error == IllegalArgument
    ensures r.Success? ==> Valid(r.value) && r.value.nextRef == l.nextRef
    ensures r.Success? && l.size == 0 ==> r.value == l
    ensures r.Success? && l.size > 0 ==> r.value.size == l.size - 1
    ensures r.Success? && l.size >= 2 ==>
      var k := IndexOf(l, Blocks(l)[index]);
      0 <= k && r.value.chain == l.chain[..k] + l.chain[k + 1..]
    ensures r.Success? && l.size >= 2 && Blocks(l)[index] !in Blocks(l)[..index] ==>
      r.value.chain == l.chain[..index] + l.chain[index + 1..]
  {
    if index < 0 || index > l.size then Failure(IllegalArgument)
    else if l.size == 0 then Success(l)
    else if l.size == 1 then Success(Emptied(l))
    else
      var b := GetBlock(l, index).value;
      assert b == Blocks(l)[index] && b in Blocks(l);
      FirstOccurrenceAt(l, index);
      RemoveBlock(l, Some(b))
  }

  /** The first occurrence of the block at `index` is at or before `index`, and it is `index`
      itself exactly when the block does not occur earlier. */
  lemma FirstOccurrenceAt(l: LinkedList, index: int)
    requires Valid(l) && 0 <= index < l.size
    ensures IndexOf(l, Blocks(l)[index]) <= index
    ensures Blocks(l)[index] !in Blocks(l)[..index] <==> IndexOf(l, Blocks(l)[index]) == index
  {
    var b := Blocks(l)[index];
    var k := IndexOf(l, b);
    if k < index {
      assert Blocks(l)[..index][k] == b;
    } else {
      forall j | 0 <= j < index
        ensures Blocks(l)[..index][j] != b
      {
        assert Blocks(l)[..index][j] == Blocks(l)[j];
      }
    }
  }

  /** remove(int) as the source writes it: it delegates to remove(MemoryBlock) as written.
      Where the tail test does not misfire it is the corrected removal; in particular, when the
      block at `index` occurs nowhere else, exactly the node at `index` goes. The excluded
      `index == size` call is as for RemoveAt. */
  function RemoveAtAsWritten(l: LinkedList, index: int): (r: Result<LinkedList>)
    requires Valid(l)
    requires index != l.size || l.size <= 1
    ensures r.Failure? <==> index < 0 || index > l.size
    ensures r.Failure? ==> r.error == IllegalArgument
    ensures r.Success? && l.size == 0 ==> r.value == l
    ensures r.Success? && l.size == 1 ==> Valid(r.value) && r.value.chain == []
    ensures r.Success? && l.size > 0 ==> r.value.size == l.size - 1
    ensures r.Success? ==> r.value.nextRef == l.nextRef
    ensures r.Success? && l.size >= 2 && !TailTestMisfires(l, Blocks(l)[index]) ==> r == RemoveAt(l, index)
    ensures r.Success? && l.size >= 2 && (forall k :: 0 <= k < l.size && k != index ==> Blocks(l)[k] != Blocks(l)[index]) ==>
      Valid(r.value) && r.value.chain == l.chain[..index] + l.chain[index + 1..]
  {
    if index < 0 || index > l.size then Failure(IllegalArgument)
    else if l.size == 0 then Success(l)
    else if l.size == 1 then Success(Emptied(l))
    else
      var b := GetBlock(l, index).value;
      assert b == Blocks(l)[index] && b in Blocks(l);
      RemoveBlockAsWritten(l, Some(b))
  }

  /** Exchanges the blocks of the nodes at `j` and `j + 1`; the nodes stay where they are. */
  function SwapPayloads(c: seq<Node>, j: nat): (d: seq<Node>)
    requires j + 1 < |c|
    ensures |d| == |c| && d[j].block == c[j + 1].block && d[j + 1].block == c[j].block
    ensures forall k :: 0 <= k < |c| ==> d[k].ref == c[k].ref
    ensures forall k :: 0 <= k < |c| && k != j && k != j + 1 ==> d[k] == c[k]
  {
    c[j := Node(c[j].ref, c[j + 1].block)][j + 1 := Node(c[j + 1].ref, c[j].block)]
  }

  lemma SwapPayloadsKeepsContents(c: seq<Node>, j: nat)
    requires j + 1 < |c|
    ensures RefsOf(SwapPayloads(c, j)) == RefsOf(c)
    ensures multiset(BlocksOf(SwapPayloads(c, j))) == multiset(BlocksOf(c))
  {
    assert BlocksOf(SwapPayloads(c, j)) == BlocksOf(c)[j := c[j + 1].block][j + 1 := c[j].block];
  }

  /** Base addresses never decrease from position `m` to the tail. */
  predicate SortedFrom(c: seq<Node>, m: nat) {
    forall a, b :: m <= a < b < |c| ==> c[a].block.baseAddress <= c[b].block.baseAddress
  }

  /** Every address before position `m` is at most every address from `m` on. */
  predicate SplitAt(c: seq<Node>, m: nat) {
    forall a, b :: 0 <= a < m <= b < |c| ==> c[a].block.baseAddress <= c[b].block.baseAddress
  }

  /** One pass of the inner loop of sort over positions 0 to `m - 1`: adjacent blocks out of
      address order are swapped, which carries the largest address of the prefix to `m - 1`. */
  method BubblePass(c: seq<Node>, m: nat) returns (d: seq<Node>)
    requires 1 <= m <= |c|
    ensures |d| == |c| && d[m..] == c[m..]
    ensures RefsOf(d) == RefsOf(c)
    ensures multiset(BlocksOf(d)) == multiset(BlocksOf(c))
    ensures forall a :: 0 <= a < m ==> d[a].block.baseAddress <= d[m - 1].block.baseAddress
    ensures multiset(BlocksOf(d[..m])) == multiset(BlocksOf(c[..m]))
  {
    d := c;
    var j := 0;
    while j < m - 1
      invariant 0 <= j <= m - 1
      invariant |d| == |c| && d[m..] == c[m..]
      invariant RefsOf(d) == RefsOf(c)
      invariant multiset(BlocksOf(d)) == multiset(BlocksOf(c))
      invariant multiset(BlocksOf(d[..m])) == multiset(BlocksOf(c[..m]))
      invariant forall a :: 0 <= a <= j ==> d[a].block.baseAddress <= d[j].block.baseAddress
    {
      // getNode(j) and its successor
      if d[j].block.baseAddress > d[j + 1].block.baseAddress {
        SwapPayloadsKeepsContents(d, j);
        SwapPayloadsKeepsContents(d[..m], j);
        assert SwapPayloads(d, j)[..m] == SwapPayloads(d[..m], j);
        d := SwapPayloads(d, j);
      }
      j := j + 1;
    }
  }

  /** A pass over a prefix that is split from a sorted suffix extends the sorted suffix by one. */
  lemma PassExtendsSortedSuffix(c: seq<Node>, d: seq<Node>, m: nat)
    requires 1 <= m <= |c| && |d| == |c| && d[m..] == c[m..]
    requires SortedFrom(c, m) && SplitAt(c, m)
    requires multiset(BlocksOf(d[..m])) == multiset(BlocksOf(c[..m]))
    requires forall a :: 0 <= a < m ==> d[a].block.baseAddress <= d[m - 1].block.baseAddress
    ensures SortedFrom(d, m - 1) && SplitAt(d, m - 1)
  {
    forall a, b | 0 <= a < m <= b < |d|
      ensures d[a].block.baseAddress <= d[b].block.baseAddress
    {
      var x := d[a].block;
      assert x == BlocksOf(d[..m])[a];
      assert x in multiset(BlocksOf(c[..m]));
      var a' :| 0 <= a' < m && BlocksOf(c[..m])[a'] == x;
      assert c[a'].block == x;
      assert d[b] == c[b];
    }
  }

  /** A chain sorted from position 1 whose head is at most everything after it is sorted. */
  lemma SortedPrefixSplit(c: seq<Node>)
    requires |c| <= 1 || (SortedFrom(c, 1) && SplitAt(c, 1))
    ensures AddressSorted(BlocksOf(c))
  {
  }

  /** Moving payloads between the nodes of a valid list, without moving the nodes, keeps the
      cached fields right. */
  lemma SameNodesKeepValid(l: LinkedList, c: seq<Node>)
    requires Valid(l) && RefsOf(c) == RefsOf(l.chain)
    ensures Valid(LinkedList(c, l.first, l.last, l.size, l.nextRef))
  {
    assert forall k :: 0 <= k < |c| ==> c[k].ref == RefsOf(c)[k] == RefsOf(l.chain)[k] == l.chain[k].ref;
  }

  /** sort: bubble sort on base addresses that swaps the blocks between nodes. Every node keeps
      its position; the blocks end up a permutation of the original ones in non-decreasing
      address order. */
  method Sort(l: LinkedList) returns (r: LinkedList)
    requires Valid(l)
    ensures Valid(r)
    ensures r.size == l.size && r.first == l.first && r.last == l.last && r.nextRef == l.nextRef
    ensures RefsOf(r.chain) == RefsOf(l.chain)
    ensures multiset(Blocks(r)) == multiset(Blocks(l))
    ensures AddressSorted(Blocks(r))
  {
    var c := l.chain;
    var n := l.size;
    var i := 0;
    while i < n - 1
      invariant 0 <= i <= if n == 0 then 0 else n - 1
      invariant |c| == n
      invariant RefsOf(c) == RefsOf(l.chain)
      invariant multiset(BlocksOf(c)) == multiset(Blocks(l))
      invariant SortedFrom(c, n - i) && SplitAt(c, n - i)
    {
      var d := BubblePass(c, n - i);
      PassExtendsSortedSuffix(c, d, n - i);
      c := d;
      i := i + 1;
    }
    SortedPrefixSplit(c);
    SameNodesKeepValid(l, c);
    r := LinkedList(c, l.first, l.last, l.size, l.nextRef);
  }
}
