/** The tail test of remove(MemoryBlock) as the source writes it. Its loop takes the tail
    branch when the block it found is the block of the last node, not when the node it found
    is the last node. When the first occurrence of a block is an interior node and the same
    block also sits at the tail, `current.next = null` cuts off every node after `current`,
    while `size` drops by only one. remove(int) inherits the defect. */
module RemoveBlockTailTest {
  import opened Outcomes
  import opened MemoryBlocks
  import opened LinkedLists

  /** Whenever the first occurrence of `b` is interior and `b` is also the tail's block, the
      list as written keeps only the nodes before that occurrence but reports one node fewer
      than before, so the representation invariant breaks; the corrected removal keeps every
      other node. */
  lemma AsWrittenTruncates(l: LinkedList, b: MemoryBlock)
    requires Valid(l)
    requires TailTestMisfires(l, b)
    ensures RemoveBlockAsWritten(l, Some(b)).Success?
    ensures var r := RemoveBlockAsWritten(l, Some(b)).value;
      r.chain == l.chain[..IndexOf(l, b)] && r.size == l.size - 1 && !Valid(r)
    ensures var k := IndexOf(l, b);
      RemoveBlock(l, Some(b)) == Success(LinkedList(l.chain[..k] + l.chain[k + 1..], l.first, l.last, l.size - 1, l.nextRef))
  {
    var k := IndexOf(l, b);
    HeadHoldsFirstOccurrence(l, b);
    PredecessorOfFirstOccurrence(l, b);
    LastIsTailPosition(l, k);
    assert Blocks(l)[|l.chain| - 1] == l.chain[|l.chain| - 1].block;
    assert RemoveBlockAsWritten(l, Some(b)) == Success(UnlinkFirstOccurrenceAsWritten(l, b));
    assert UnlinkFirstOccurrenceAsWritten(l, b) == UnlinkSuccessor(l, k - 1, true);
    var fixedUp := RemoveBlock(l, Some(b)).value;
    assert fixedUp == UnlinkFirstOccurrence(l, b) == UnlinkSuccessor(l, k - 1, false);
    assert fixedUp.first == Some(fixedUp.chain[0].ref) == Some(l.chain[0].ref);
    assert fixedUp.last == Some(fixedUp.chain[|fixedUp.chain| - 1].ref) == Some(l.chain[|l.chain| - 1].ref);
  }

  /** A four-node list [A, X, B, X] holding the block X twice: as written, remove(X) leaves
      the chain [A] with size 3; the corrected removal leaves [A, B, X]. */
  lemma TruncationExample()
    ensures
      var a := MemoryBlock(1, 100, 4);
      var x := MemoryBlock(2, 50, 2);
      var b := MemoryBlock(3, 10, 1);
      var l := LinkedList([Node(0, a), Node(1, x), Node(2, b), Node(3, x)], Some(0), Some(3), 4, 4);
      && Valid(l)
      && RemoveBlockAsWritten(l, Some(x)) == Success(LinkedList([Node(0, a)], Some(0), Some(0), 3, 4))
      && RemoveBlock(l, Some(x)) == Success(LinkedList([Node(0, a), Node(2, b), Node(3, x)], Some(0), Some(3), 3, 4))
  {
    var a := MemoryBlock(1, 100, 4);
    var x := MemoryBlock(2, 50, 2);
    var b := MemoryBlock(3, 10, 1);
    var l := LinkedList([Node(0, a), Node(1, x), Node(2, b), Node(3, x)], Some(0), Some(3), 4, 4);
    assert Blocks(l) == [a, x, b, x];
    assert IndexFrom(l.chain, x, 1) == 1;
    assert IndexOf(l, x) == 1;
    AsWrittenTruncates(l, x);
    assert l.chain[..1] == [Node(0, a)];
    assert l.chain[..1] + l.chain[2..] == [Node(0, a), Node(2, b), Node(3, x)];
  }

  /** remove(int) inherits the defect through getBlock: on [A, X, B, X], removing index 1 or
      index 3 leaves the chain [A] with size 3. The corrected removal leaves [A, B, X] for
      both, since remove(int) removes the first occurrence of the block at `index`. */
  lemma RemoveAtTruncationExample()
    ensures
      var a := MemoryBlock(1, 100, 4);
      var x := MemoryBlock(2, 50, 2);
      var b := MemoryBlock(3, 10, 1);
      var l := LinkedList([Node(0, a), Node(1, x), Node(2, b), Node(3, x)], Some(0), Some(3), 4, 4);
      && RemoveAtAsWritten(l, 1) == Success(LinkedList([Node(0, a)], Some(0), Some(0), 3, 4))
      && RemoveAtAsWritten(l, 3) == Success(LinkedList([Node(0, a)], Some(0), Some(0), 3, 4))
      && RemoveAt(l, 1) == Success(LinkedList([Node(0, a), Node(2, b), Node(3, x)], Some(0), Some(3), 3, 4))
      && RemoveAt(l, 3) == Success(LinkedList([Node(0, a), Node(2, b), Node(3, x)], Some(0), Some(3), 3, 4))
  {
    TruncationExample();
  }
}
