/** Properties that relate several list operations. */
module ListProperties {
  import opened Outcomes
  import opened MemoryBlocks
  import opened LinkedLists
  import opened RemoveBlockTailTest

  /** The cached fields are determined by the chain: two valid lists with the same chain have
      the same first, last and size, and are the same list once they have handed out the same
      node identities. */
  lemma ValidDeterminedByChain(a: LinkedList, b: LinkedList)
    requires Valid(a) && Valid(b) && a.chain == b.chain
    ensures a.first == b.first && a.last == b.last && a.size == b.size
    ensures a.nextRef == b.nextRef ==> a == b
  {
  }

  /** addFirst followed by remove(0) gives back the original list: the removal takes the head
      branch, which the tail test does not reach. Only the identity handed to the removed node
      stays used. */
  lemma AddFirstThenRemoveFirst(l: LinkedList, b: MemoryBlock)
    requires Valid(l)
    ensures RemoveAtAsWritten(AddFirst(l, b), 0) == Success(l.(nextRef := l.nextRef + 1))
  {
    var m := AddFirst(l, b);
    var r := RemoveAtAsWritten(m, 0);
    if l.size == 0 {
      assert r == Success(Emptied(m));
    } else {
      assert GetBlock(m, 0) == Success(b);
      assert r == RemoveBlockAsWritten(m, Some(b)) == Success(UnlinkFirst(m));
      ValidDeterminedByChain(r.value, l.(nextRef := l.nextRef + 1));
    }
  }

  /** A block inserted at `index` is what getBlock(index) returns afterwards. */
  lemma AddThenGetBlock(l: LinkedList, index: int, b: MemoryBlock)
    requires Valid(l) && 0 <= index <= l.size
    ensures var r := Add(l, index, b);
      r.Success? && GetBlock(r.value, index) == Success(b)
  {
  }

  /** remove(getNode(index)) unlinks exactly the node at `index`. */
  lemma RemoveNodeAtIndex(l: LinkedList, index: int)
    requires Valid(l) && 0 <= index < l.size
    ensures GetNode(l, index) == Success(Some(l.chain[index].ref))
    ensures var r := RemoveNode(l, GetNode(l, index).value);
      r.Success? && r.value.chain == l.chain[..index] + l.chain[index + 1..]
  {
  }

  /** Removing the node that add created gives back the original list; only the identity
      handed to that node stays used. */
  lemma AddThenRemoveNode(l: LinkedList, index: int, b: MemoryBlock)
    requires Valid(l) && 0 <= index <= l.size
    ensures var m := Add(l, index, b);
      m.Success? && RemoveNode(m.value, GetNode(m.value, index).value) == Success(l.(nextRef := l.nextRef + 1))
  {
    var m := Add(l, index, b).value;
    assert GetNode(m, index) == Success(Some(m.chain[index].ref));
    RemoveInsertedNode(l, m, index);
  }

  /** The list `m` is `l` with one node inserted at `index`; removing that node by identity
      gives back `l`. */
  lemma RemoveInsertedNode(l: LinkedList, m: LinkedList, index: nat)
    requires Valid(l) && Valid(m) && index <= l.size && |m.chain| == |l.chain| + 1
    requires m.chain[..index] == l.chain[..index] && m.chain[index + 1..] == l.chain[index..]
    requires m.nextRef == l.nextRef + 1
    ensures RemoveNode(m, Some(m.chain[index].ref)) == Success(l.(nextRef := l.nextRef + 1))
  {
    DropInserted(l.chain, m.chain, index);
    var r := RemoveNode(m, Some(m.chain[index].ref));
    assert r.Success? && r.value.chain == l.chain;
    ValidDeterminedByChain(r.value, l.(nextRef := l.nextRef + 1));
  }

  /** Dropping the element inserted at `index` gives back the sequence it was inserted into. */
  lemma DropInserted(c: seq<Node>, d: seq<Node>, index: nat)
    requires index <= |c| && |d| == |c| + 1
    requires d[..index] == c[..index] && d[index + 1..] == c[index..]
    ensures d[..index] + d[index + 1..] == c
  {
    assert c == c[..index] + c[index..];
  }

  /** A handle to a node that was removed never designates a node added later: after
      remove(node) and addLast(c), removing the stale handle again leaves the list as it is,
      since the walk of remove(Node) reaches the tail without meeting it. */
  lemma StaleHandleIsNotFound(l: LinkedList, k: nat, c: MemoryBlock)
    requires Valid(l) && k < |l.chain|
    ensures var h := Some(l.chain[k].ref);
      var removed := RemoveNode(l, h);
      removed.Success? && RemoveNode(AddLast(removed.value, c), h) == Success(AddLast(removed.value, c))
  {
    var h := l.chain[k].ref;
    RemovedNodeIsGone(l, k);
    var removed := RemoveNode(l, Some(h)).value;
    AbsentStaysAbsent(removed, c, h);
    assert h !in RefsOf(AddLast(removed, c).chain);
  }

  /** A node identity handed out earlier and no longer in the list is not in it after
      addLast either, since addLast hands out a new identity. */
  lemma AbsentStaysAbsent(l: LinkedList, c: MemoryBlock, h: NodeRef)
    requires Valid(l) && h < l.nextRef
    requires forall i :: 0 <= i < |l.chain| ==> l.chain[i].ref != h
    ensures forall i :: 0 <= i < |AddLast(l, c).chain| ==> AddLast(l, c).chain[i].ref != h
  {
    var added := AddLast(l, c);
    forall i | 0 <= i < |added.chain|
      ensures added.chain[i].ref != h
    {
      if i < |l.chain| {
        assert added.chain[i] == added.chain[..l.size][i] == l.chain[i];
      }
    }
  }

  /** After remove(node), no node of the list is that node, and every node of the list was
      created before it was handed out, as was the removed one. */
  lemma RemovedNodeIsGone(l: LinkedList, k: nat)
    requires Valid(l) && k < |l.chain|
    ensures var r := RemoveNode(l, Some(l.chain[k].ref));
      && r.Success? && r.value.nextRef == l.nextRef && l.chain[k].ref < l.nextRef
      && forall i :: 0 <= i < |r.value.chain| ==> r.value.chain[i].ref != l.chain[k].ref
  {
    var r := RemoveNode(l, Some(l.chain[k].ref));
    assert r.Success? && r.value.chain == l.chain[..k] + l.chain[k + 1..];
    DropLeavesNoCopy(l.chain, k, r.value.chain);
  }

  /** Dropping position `k` from a chain of distinct nodes leaves no node equal to it. */
  lemma DropLeavesNoCopy(c: seq<Node>, k: nat, d: seq<Node>)
    requires DistinctRefs(c) && k < |c| && d == c[..k] + c[k + 1..]
    ensures forall i :: 0 <= i < |d| ==> d[i].ref != c[k].ref
  {
    forall i | 0 <= i < |d|
      ensures d[i].ref != c[k].ref
    {
      if i < k {
        assert d[i] == c[i];
      } else {
        assert d[i] == c[i + 1];
      }
    }
  }

  /** With the corrected tail test, remove(int) and remove(getNode(index)) agree exactly when
      the block at `index` does not occur earlier in the list: removal by index goes through
      the block, removal by node through the node's identity. */
  lemma RemoveAtAgreesWithRemoveNode(l: LinkedList, index: int)
    requires Valid(l) && 2 <= l.size && 0 <= index < l.size
    ensures GetNode(l, index).Success?
    ensures RemoveAt(l, index) == RemoveNode(l, GetNode(l, index).value)
      <==> Blocks(l)[index] !in Blocks(l)[..index]
  {
    var byNode := RemoveNode(l, GetNode(l, index).value);
    assert byNode.value.chain == l.chain[..index] + l.chain[index + 1..];
    var k := IndexOf(l, Blocks(l)[index]);
    if Blocks(l)[index] in Blocks(l)[..index] {
      assert k < index;
      var byIndex := RemoveAt(l, index);
      assert byIndex.value.chain[k] == l.chain[k + 1];
      assert byNode.value.chain[k] == l.chain[k];
      assert l.chain[k].ref != l.chain[k + 1].ref;
    } else {
      ValidDeterminedByChain(RemoveAt(l, index).value, byNode.value);
    }
  }

  /** As the source is written, remove(int) and remove(getNode(index)) agree exactly when the
      block at `index` does not occur earlier in the list and the tail test does not misfire
      on it. */
  lemma RemoveAtAsWrittenAgreesWithRemoveNode(l: LinkedList, index: int)
    requires Valid(l) && 2 <= l.size && 0 <= index < l.size
    ensures GetNode(l, index).Success?
    ensures RemoveAtAsWritten(l, index) == RemoveNode(l, GetNode(l, index).value)
      <==> Blocks(l)[index] !in Blocks(l)[..index] && !TailTestMisfires(l, Blocks(l)[index])
  {
    var b := Blocks(l)[index];
    if TailTestMisfires(l, b) {
      AsWrittenTruncates(l, b);
      assert RemoveAtAsWritten(l, index) == RemoveBlockAsWritten(l, Some(b));
      assert |RemoveAtAsWritten(l, index).value.chain| < |RemoveNode(l, GetNode(l, index).value).value.chain|;
    } else {
      RemoveAtAgreesWithRemoveNode(l, index);
    }
  }
}
