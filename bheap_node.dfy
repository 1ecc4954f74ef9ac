/** The `bheap_node` record of bheap.h. Nodes live in an arena (a sequence
    standing for the C heap of `malloc`ed nodes); a pointer is an index into
    that arena and NULL is `None`. */
module HeapNodes {
  import opened Bits

  datatype Option<T> = None | Some(value: T)

  /** A pointer to a node: an arena index, or NULL. */
  type Ptr = Option<nat>

  /** A `bheap_node`: `byte` is meaningful for leaves only. */
  datatype Node = Node(frequency: nat, left: Ptr, right: Ptr, parent: Ptr, byte: byte)

  /** A node is a leaf when it has neither child. */
  predicate IsLeaf(n: Node)
  {
    n.left.None? && n.right.None?
  }
}
