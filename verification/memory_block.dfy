/** The payload the list stores: a descriptor of a memory region. */
module MemoryBlocks {

  /** A memory block. The list compares blocks by object identity; `tag` stands for that
      identity, so two blocks are the same object exactly when they are equal values. */
  datatype MemoryBlock = MemoryBlock(tag: nat, baseAddress: nat, length: nat)

  /** Base addresses never decrease along `s`. */
  predicate AddressSorted(s: seq<MemoryBlock>) {
    forall i, j :: 0 <= i < j < |s| ==> s[i].baseAddress <= s[j].baseAddress
  }
}
