/** `write_tree` of huff.c: the tree's shape and symbols written as a bit
    stream in preorder (`0` for an internal node, `1` and the symbol's
    eight bits for a leaf), packed most significant bit first into the
    caller's buffer. */
module HuffWrite {
  import opened Bits
  import opened HeapNodes
  import opened HuffTree
  import opened Arena
  import opened HuffWalk
  import opened Sink

  /** `tree` is the node at `path`. */
  ghost predicate Located(mem: seq<Node>, root: nat, tree: Ptr, path: seq<bool>)
    requires Finished(mem, root)
  {
    tree.Some? && ValidPath(TreeOf(mem, root), path) && tree.value == AddrAt(mem, root, path)
  }

  /** The state at the top of `write_tree`'s loop, apart from the bits:
      where the walk is, and that what it has written so far (and will
      have written when it leaves the node) fits in the serialization. */
  ghost predicate TreeWalk(mem: seq<Node>, root: nat, tree: Ptr, path: seq<bool>, dir: bool)
    requires Finished(mem, root)
  {
    var t := TreeOf(mem, root);
    Located(mem, root, tree, path) && (dir ==> At(t, path).Node?) &&
    |Done(t, path, dir)| <= |Preorder(t, [])| &&
    |SerOf(Done(t, path, dir))| <= |SerOf(Through(t, [], path))| <= |Serialize(t)|
  }

  /** The walk starts at the root having visited nothing. */
  lemma {:induction false} WalkStart(mem: seq<Node>, root: nat)
    requires Finished(mem, root)
    ensures TreeWalk(mem, root, Some(root), [], false)
    ensures Before(TreeOf(mem, root), [], []) == []
  {
    ThroughBound(TreeOf(mem, root), [], []);
    SerBound(TreeOf(mem, root), []);
  }

  /** `bits--; tree = tree->left;` at an internal node writes a `0`. */
  lemma {:induction false} WalkDown(mem: seq<Node>, root: nat, q: nat, path: seq<bool>)
    requires Finished(mem, root) && TreeWalk(mem, root, Some(q), path, false)
    requires q < |mem| && !IsLeaf(mem[q])
    ensures TreeWalk(mem, root, mem[q].left, path + [false], false)
    ensures SerOf(Before(TreeOf(mem, root), [], path + [false])) == SerOf(Before(TreeOf(mem, root), [], path)) + [false]
    ensures |Before(TreeOf(mem, root), [], path)| < |Before(TreeOf(mem, root), [], path + [false])|
  {
    var t := TreeOf(mem, root);
    Here(mem, root, path);
    Down(mem, root, path);
    BeforeLeft(t, [], path);
    SerOfAppend(Before(t, [], path), [Inner([] + path)]);
    SerOfOne(Inner([] + path));
    ThroughBound(t, [], path + [false]);
    SerBound(t, path + [false]);
  }

  /** At a leaf the walk writes `1` and the symbol, which takes it through
      the leaf. */
  lemma {:induction false} LeafBits(mem: seq<Node>, root: nat, q: nat, path: seq<bool>)
    requires Finished(mem, root) && TreeWalk(mem, root, Some(q), path, false)
    requires q < |mem| && IsLeaf(mem[q])
    ensures SerOf(Through(TreeOf(mem, root), [], path)) ==
            SerOf(Before(TreeOf(mem, root), [], path)) + ([true] + ToBits(mem[q].byte, 8))
    ensures |SerOf(Before(TreeOf(mem, root), [], path))| + 9 <= |Serialize(TreeOf(mem, root))|
    ensures |Before(TreeOf(mem, root), [], path)| < |Through(TreeOf(mem, root), [], path)|
  {
    var t := TreeOf(mem, root);
    Here(mem, root, path);
    ThroughLeaf(t, [], path);
    var v := LeafVisit([] + path, mem[q].byte);
    SerOfAppend(Before(t, [], path), [v]);
    SerOfOne(v);
    ThroughBound(t, [], path);
  }

  /** Leaving the root, from a leaf or on the way up, ends the walk. */
  lemma {:induction false} WalkEnd(mem: seq<Node>, root: nat, q: nat, path: seq<bool>)
    requires Finished(mem, root) && Located(mem, root, Some(q), path)
    requires q < |mem| && mem[q].parent.None?
    ensures Through(TreeOf(mem, root), [], path) == Preorder(TreeOf(mem, root), [])
  {
    Here(mem, root, path);
    ThroughRoot(TreeOf(mem, root), []);
  }

  /** Leaving a left child, whose subtree is done, for its right sibling
      (`tree = tree->parent->right`). The caller has found that `q` is its
      parent's left child, or is not its right one. */
  lemma {:induction false} WalkAcross(mem: seq<Node>, root: nat, q: nat, path: seq<bool>, u: nat)
    requires Finished(mem, root) && Located(mem, root, Some(q), path)
    requires q < |mem| && mem[q].parent == Some(u) && u < |mem|
    requires mem[u].left == Some(q) || mem[u].right != Some(q)
    ensures path != []
    ensures TreeWalk(mem, root, mem[u].right, path[..|path| - 1] + [true], false)
    ensures Before(TreeOf(mem, root), [], path[..|path| - 1] + [true]) == Through(TreeOf(mem, root), [], path)
  {
    var t := TreeOf(mem, root);
    Here(mem, root, path);
    Up(mem, root, path);
    var up := path[..|path| - 1];
    ToSibling(t, [], up);
    ThroughBound(t, [], up + [true]);
    SerBound(t, up + [true]);
  }

  /** Leaving a right child, whose subtree is done, for its parent, whose
      subtree is then done too (`tree = tree->parent`). The caller has
      found that `q` is its parent's right child, or is not its left
      one. */
  lemma {:induction false} WalkUp(mem: seq<Node>, root: nat, q: nat, path: seq<bool>, u: nat)
    requires Finished(mem, root) && Located(mem, root, Some(q), path)
    requires q < |mem| && mem[q].parent == Some(u) && u < |mem|
    requires mem[u].left != Some(q) || mem[u].right == Some(q)
    ensures path != []
    ensures TreeWalk(mem, root, Some(u), path[..|path| - 1], true)
    ensures Through(TreeOf(mem, root), [], path[..|path| - 1]) == Through(TreeOf(mem, root), [], path)
  {
    var t := TreeOf(mem, root);
    Here(mem, root, path);
    Up(mem, root, path);
    var up := path[..|path| - 1];
    ToParent(t, [], up);
    ThroughBound(t, [], up);
    SerBound(t, up);
  }

  /** The next bit of a symbol, from the top: `(chr >> i) & 1` is the bit
      at index `8 - i` of its eight-bit spelling, for `i` counting down. */
  lemma {:induction false} SymbolBit(chr: byte, i: nat)
    requires 1 <= i <= 8
    ensures ToBits(Low(Shr(chr, i - 1), 1), 1) == [ToBits(chr, 8)[8 - i]]
  {
    ToBitsAt(chr, 8, i - 1);
    BitIsShrAnd(chr, i - 1);
  }

  /** Writing the next element of `sym` after a prefix of it. */
  lemma {:induction false} PrefixStep(e: seq<bool>, sym: seq<bool>, sent: seq<bool>, k: nat, bit: seq<bool>)
    requires k < |sym| && sent == e + sym[..k] && bit == [sym[k]]
    ensures sent + bit == e + sym[..k + 1]
  {
    assert sym[..k + 1] == sym[..k] + [sym[k]];
  }

  /** One turn of the symbol loop: `bits--; i--; byte |= ((chr >> i) & 1) << bits;`,
      which writes bit `8 - i` of `sym`, the symbol's spelling. */
  method PutSymbolBit(pending: nat, bits: nat, chr: byte, i: nat, ghost sym: seq<bool>,
                      ghost out: seq<byte>, ghost e: seq<bool>, ghost sent: seq<bool>)
      returns (pending': nat, bits': nat, i': nat, ghost sent': seq<bool>)
    requires 1 <= bits <= 8 && 1 <= i <= 8 && |sym| == 8
    requires ToBits(Low(Shr(chr, i - 1), 1), 1) == [sym[8 - i]]
    requires Writer(out, pending, bits, sent) && sent == e + sym[..8 - i]
    ensures bits' == bits - 1 && i' == i - 1
    ensures Writer(out, pending', bits', sent') && sent' == e + sym[..8 - i']
  {
    bits' := bits - 1;
    i' := i - 1;
    var w := Low(Shr(chr, i'), 1);
    assert w < 2 by {
      assert Pow2(1) == 2;
    }
    pending' := BitOr(pending, Shl(w, bits'));
    sent' := sent + ToBits(w, 1);
    EmitAt(out, pending, bits, sent, w);
    PrefixStep(e, sym, sent, 8 - i, ToBits(w, 1));
  }

  /** A leaf's bits: `bits--; byte |= 1 << bits;`, then the symbol's eight
      bits from the top, a full byte being flushed before each bit and at
      the end (`for (int i = 8;;)`). */
  method PutLeaf(buf: array<byte>, start: nat, len: nat, pending: nat, bits: nat, chr: byte,
                 ghost out: seq<byte>, ghost emitted: seq<bool>, ghost orig: seq<byte>, ghost limit: nat)
      returns (len': nat, pending': nat, bits': nat, ghost out': seq<byte>)
    requires Holds(buf[..], orig, start, out) && len == |out|
    requires Writer(out, pending, bits, emitted) && 1 <= bits
    requires |emitted| + 9 <= limit && start + (limit + 7) / 8 <= buf.Length
    modifies buf
    ensures Holds(buf[..], orig, start, out') && len' == |out'|
    ensures Writer(out', pending', bits', emitted + ([true] + ToBits(chr, 8)))
    ensures 1 <= bits' <= 8
  {
    EmitOne(out, pending, bits, emitted);
    bits' := bits - 1;
    pending' := BitOr(pending, Shl(1, bits'));
    len', out' := len, out;
    ghost var e := emitted + [true];
    ghost var sym := ToBits(chr, 8);
    var i := 8;
    ghost var sent := e;
    assert sym[..8 - i] == [];
    while true
      invariant 0 <= i <= 8 && bits' <= 8
      invariant Holds(buf[..], orig, start, out') && len' == |out'|
      invariant Writer(out', pending', bits', sent)
      invariant sent == e + sym[..8 - i]
      decreases i
    {
      len', pending', bits', out' := FlushIfFull(buf, start, len', pending', bits', out', sent, orig, limit);
      if i == 0 {
        SymbolSent(emitted, sym, sent);
        break;
      }
      SymbolBit(chr, i);
      pending', bits', i, sent := PutSymbolBit(pending', bits', chr, i, sym, out', e, sent);
    }
  }

  /** All eight bits of the symbol sent after the leaf's `1`. */
  lemma {:induction false} SymbolSent(emitted: seq<bool>, sym: seq<bool>, sent: seq<bool>)
    requires |sym| == 8 && sent == (emitted + [true]) + sym[..8]
    ensures sent == emitted + ([true] + sym)
  {
    assert sym[..8] == sym;
  }

  /** The leaf branch of `write_tree`'s loop: the leaf's bits, then the
      move to the right sibling (`tree = tree->parent->right`), up to the
      parent (`dir = true; tree = tree->parent`), or, at the root, out of
      the loop (`stop`). */
  method WriteLeaf(mem: seq<Node>, root: nat, q: nat, ghost path: seq<bool>,
                   buf: array<byte>, start: nat, len: nat, pending: nat, bits: nat,
                   ghost out: seq<byte>, ghost orig: seq<byte>)
      returns (tree': Ptr, ghost path': seq<bool>, dir': bool, len': nat, pending': nat, bits': nat,
               ghost out': seq<byte>, stop: bool)
    requires Finished(mem, root) && TreeWalk(mem, root, Some(q), path, false)
    requires q < |mem| && IsLeaf(mem[q])
    requires Holds(buf[..], orig, start, out) && len == |out| && 1 <= bits
    requires Writer(out, pending, bits, SerOf(Before(TreeOf(mem, root), [], path)))
    requires start + (|Serialize(TreeOf(mem, root))| + 7) / 8 <= buf.Length
    modifies buf
    ensures Holds(buf[..], orig, start, out') && len' == |out'| && 1 <= bits' <= 8
    ensures Writer(out', pending', bits', SerOf(Through(TreeOf(mem, root), [], path)))
    ensures stop ==> Through(TreeOf(mem, root), [], path) == Preorder(TreeOf(mem, root), [])
    ensures !stop ==> TreeWalk(mem, root, tree', path', dir') &&
                      Done(TreeOf(mem, root), path', dir') == Through(TreeOf(mem, root), [], path)
    ensures |Before(TreeOf(mem, root), [], path)| < |Through(TreeOf(mem, root), [], path)|
    ensures |SerOf(Through(TreeOf(mem, root), [], path))| <= |Serialize(TreeOf(mem, root))|
  {
    Here(mem, root, path);
    LeafBits(mem, root, q, path);
    len', pending', bits', out' := PutLeaf(buf, start, len, pending, bits, mem[q].byte, out,
                                           SerOf(Before(TreeOf(mem, root), [], path)), orig,
                                           |Serialize(TreeOf(mem, root))|);
    tree', path', dir', stop := Some(q), path, false, false;
    if mem[q].parent.None? {
      WalkEnd(mem, root, q, path);
      stop := true;
    } else {
      var u := mem[q].parent.value;
      if mem[u].left == Some(q) {
        WalkAcross(mem, root, q, path, u);
        tree' := mem[u].right;
        path' := path[..|path| - 1] + [true];
      } else {
        WalkUp(mem, root, q, path, u);
        dir' := true;
        tree' := Some(u);
        path' := path[..|path| - 1];
      }
    }
  }

  /** The branches of `write_tree`'s loop at an internal node: on the way
      down a `0` and the move to the left child (`bits--; tree = tree->left`);
      on the way up, out of the loop at the root (`stop`), up again from a
      right child, or across to the right sibling (`dir = false`). */
  method WriteInner(mem: seq<Node>, root: nat, q: nat, ghost path: seq<bool>, dir: bool, bits: nat,
                    ghost out: seq<byte>, ghost pending: nat)
      returns (tree': Ptr, ghost path': seq<bool>, dir': bool, bits': nat, stop: bool)
    requires Finished(mem, root) && TreeWalk(mem, root, Some(q), path, dir)
    requires q < |mem| && !IsLeaf(mem[q]) && 1 <= bits
    requires Writer(out, pending, bits, SerOf(Done(TreeOf(mem, root), path, dir)))
    ensures bits' <= bits
    ensures stop ==> Done(TreeOf(mem, root), path, dir) == Preorder(TreeOf(mem, root), [])
    ensures stop ==> bits' == bits
    ensures !stop ==> TreeWalk(mem, root, tree', path', dir') &&
                      Writer(out, pending, bits', SerOf(Done(TreeOf(mem, root), path', dir')))
    ensures !stop ==> |Done(TreeOf(mem, root), path, dir)| < |Done(TreeOf(mem, root), path', dir')| ||
                      (Done(TreeOf(mem, root), path', dir') == Done(TreeOf(mem, root), path, dir) &&
                       ((dir && !dir') || (dir == dir' && |path'| < |path|)))
  {
    Here(mem, root, path);
    tree', path', dir', bits', stop := Some(q), path, dir, bits, false;
    if !dir {
      WalkDown(mem, root, q, path);
      EmitZero(out, pending, bits, SerOf(Before(TreeOf(mem, root), [], path)));
      bits' := bits - 1;
      tree' := mem[q].left;
      path' := path + [false];
    } else if mem[q].parent.None? {
      WalkEnd(mem, root, q, path);
      stop := true;
    } else {
      var u := mem[q].parent.value;
      if mem[u].right == Some(q) {
        WalkUp(mem, root, q, path, u);
        tree' := Some(u);
        path' := path[..|path| - 1];
      } else {
        WalkAcross(mem, root, q, path, u);
        tree' := mem[u].right;
        path' := path[..|path| - 1] + [true];
        dir' := false;
      }
    }
  }

  /** The state at the top of `write_tree`'s loop: where the walk is, and
      the bits of the nodes it has done, the full bytes of which are stored
      and the rest held in `pending`. */
  ghost predicate Writing(mem: seq<Node>, root: nat, tree: Ptr, path: seq<bool>, dir: bool,
                          bits: nat, b: seq<byte>, orig: seq<byte>, start: nat, out: seq<byte>,
                          len: nat, pending: nat)
    requires Finished(mem, root)
  {
    TreeWalk(mem, root, tree, path, dir) && 1 <= bits <= 8 &&
    Holds(b, orig, start, out) && len == |out| &&
    Writer(out, pending, bits, SerOf(Done(TreeOf(mem, root), path, dir)))
  }

  /** One turn of `write_tree`'s loop: the branch for the node at `tree`,
      then the store of a full byte. The walk either leaves the root
      (`stop`), having written the whole serialization, or moves on with
      more of it done, or as much done and nearer the root. */
  method WalkStep(mem: seq<Node>, root: nat, tree: Ptr, ghost path: seq<bool>, dir: bool,
                  buf: array<byte>, start: nat, len: nat, pending: nat, bits: nat,
                  ghost out: seq<byte>, ghost orig: seq<byte>)
      returns (tree': Ptr, ghost path': seq<bool>, dir': bool, len': nat, pending': nat, bits': nat,
               ghost out': seq<byte>, stop: bool)
    requires Finished(mem, root)
    requires Writing(mem, root, tree, path, dir, bits, buf[..], orig, start, out, len, pending)
    requires start + (|Serialize(TreeOf(mem, root))| + 7) / 8 <= buf.Length
    modifies buf
    ensures stop ==> Holds(buf[..], orig, start, out') && len' == |out'| && 1 <= bits' <= 8 &&
                     Writer(out', pending', bits', Serialize(TreeOf(mem, root)))
    ensures !stop ==> Writing(mem, root, tree', path', dir', bits', buf[..], orig, start, out', len', pending')
    ensures !stop ==> |Done(TreeOf(mem, root), path, dir)| < |Done(TreeOf(mem, root), path', dir')| ||
                      (Done(TreeOf(mem, root), path', dir') == Done(TreeOf(mem, root), path, dir) &&
                       ((dir && !dir') || (dir == dir' && |path'| < |path|)))
  {
    ghost var t := TreeOf(mem, root);
    var q := tree.value;
    Here(mem, root, path);
    if IsLeaf(mem[q]) {
      tree', path', dir', len', pending', bits', out', stop := WriteLeaf(mem, root, q, path, buf, start, len, pending, bits, out, orig);
      if stop {
        SerializeIsWalk(t, []);
        return;
      }
    } else {
      len', pending', out' := len, pending, out;
      tree', path', dir', bits', stop := WriteInner(mem, root, q, path, dir, bits, out, pending);
      if stop {
        SerializeIsWalk(t, []);
        return;
      }
    }
    len', pending', bits', out' := FlushIfFull(buf, start, len', pending', bits', out', SerOf(Done(t, path', dir')), orig, |Serialize(t)|);
  }

  /** `write_tree`: the tree at `root`, serialized in preorder and packed
      into the buffer at `start`; nothing else in the buffer changes. The
      length is ten bits per leaf less one, rounded up to whole bytes. */
  method WriteTree(mem: seq<Node>, root: nat, buf: array<byte>, start: nat) returns (len: nat)
    requires Finished(mem, root)
    requires start + |Pack(Serialize(TreeOf(mem, root)))| <= buf.Length
    modifies buf
    ensures len == |Pack(Serialize(TreeOf(mem, root)))| == (10 * LeafCount(TreeOf(mem, root)) + 6) / 8
    ensures Holds(buf[..], old(buf[..]), start, Pack(Serialize(TreeOf(mem, root))))
  {
    ghost var t := TreeOf(mem, root);
    ghost var orig := buf[..];
    ghost var path: seq<bool> := [];
    var tree: Ptr := Some(root);
    len := 0;
    var pending: nat := 0;
    var bits: nat := 8;
    var dir := false;
    ghost var out: seq<byte> := [];
    WriterStart();
    HoldsNothing(buf[..], start);
    WalkStart(mem, root);
    while tree.Some?
      invariant Writing(mem, root, tree, path, dir, bits, buf[..], orig, start, out, len, pending)
      decreases |Preorder(t, [])| - |Done(t, path, dir)|, if dir then 1 else 0, |path|
    {
      var stop;
      tree, path, dir, len, pending, bits, out, stop := WalkStep(mem, root, tree, path, dir, buf, start, len, pending, bits, out, orig);
      if stop {
        break;
      }
    }
    SerializeLength(t);
    len := FlushLast(buf, start, len, pending, bits, out, Serialize(t), orig);
  }
}
