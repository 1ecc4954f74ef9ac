/** The `bheap_node` objects that `build_tree` links into a Huffman tree,
    seen through the arena of HeapNodes: which tree an address roots, the
    address reached along a path, and the forest of parentless nodes that
    the heap holds while the tree is being built. */
module Arena {
  import opened Bits
  import opened HeapNodes
  import opened HuffTree

  /** The fields of a node that the tree's shape and labels depend on. */
  function Links(n: Node): (Ptr, Ptr, byte)
  {
    (n.left, n.right, n.byte)
  }

  /** Node `p` has two children, both at lower addresses (they were
      allocated before it). */
  ghost predicate HasChildren(mem: seq<Node>, p: nat)
    requires p < |mem|
  {
    mem[p].left.Some? && mem[p].right.Some? && mem[p].left.value < p && mem[p].right.value < p
  }

  /** Node `q` is a leaf, or it has two distinct children at lower
      addresses that point back to it as their parent and whose
      frequencies add up to its own. */
  ghost predicate Linked(mem: seq<Node>, q: nat)
    requires q < |mem|
  {
    var n := mem[q];
    (n.left.None? <==> n.right.None?) &&
    (n.left.Some? ==>
       n.left.value < q && n.right.value < q && n.left.value != n.right.value &&
       mem[n.left.value].parent == Some(q) && mem[n.right.value].parent == Some(q) &&
       n.frequency == mem[n.left.value].frequency + mem[n.right.value].frequency)
  }

  /** Every node of the arena is linked as `build_tree` links them. */
  ghost predicate GoodArena(mem: seq<Node>)
  {
    forall q :: 0 <= q < |mem| ==> Linked(mem, q)
  }

  /** The tree rooted at address `p`. */
  ghost function TreeOf(mem: seq<Node>, p: nat): Tree
    requires p < |mem|
    decreases p
  {
    if HasChildren(mem, p) then Tree.Node(TreeOf(mem, mem[p].left.value), TreeOf(mem, mem[p].right.value))
    else Leaf(mem[p].byte)
  }

  /** In a linked arena the tree at `q` is a node exactly when the node at
      `q` is not a leaf in C's sense (it has a child). */
  lemma {:induction false} TreeOfNode(mem: seq<Node>, q: nat)
    requires GoodArena(mem) && q < |mem|
    ensures TreeOf(mem, q).Node? <==> !IsLeaf(mem[q])
    ensures !IsLeaf(mem[q]) ==> HasChildren(mem, q)
  {
    assert Linked(mem, q);
  }

  /** The tree at `p` depends only on the links and bytes of the nodes at
      addresses up to `p`. */
  lemma {:induction false} SameLinks(mem: seq<Node>, mem': seq<Node>, p: nat)
    requires p < |mem| && p < |mem'|
    requires forall q :: 0 <= q <= p ==> Links(mem'[q]) == Links(mem[q])
    ensures TreeOf(mem', p) == TreeOf(mem, p)
    decreases p
  {
    assert Links(mem'[p]) == Links(mem[p]);
    if HasChildren(mem, p) {
      SameLinks(mem, mem', mem[p].left.value);
      SameLinks(mem, mem', mem[p].right.value);
    }
  }

  // ---------------------------------------------------------------------
  // Walking down from a root

  /** The address reached from `p` by following `path`'s steps. */
  ghost function AddrAt(mem: seq<Node>, p: nat, path: seq<bool>): nat
    requires p < |mem|
    decreases |path|
  {
    if path == [] || !HasChildren(mem, p) then p
    else AddrAt(mem, if path[0] then mem[p].right.value else mem[p].left.value, path[1..])
  }

  /** The address reached along a path roots the subtree at that path. */
  lemma {:induction false} AddrAtTree(mem: seq<Node>, p: nat, path: seq<bool>)
    requires p < |mem|
    ensures AddrAt(mem, p, path) < |mem|
    ensures TreeOf(mem, AddrAt(mem, p, path)) == At(TreeOf(mem, p), path)
    decreases |path|
  {
    if path != [] {
      if HasChildren(mem, p) {
        AddrAtTree(mem, if path[0] then mem[p].right.value else mem[p].left.value, path[1..]);
      } else {
        LeafAt(TreeOf(mem, p), path);
      }
    }
  }

  lemma {:induction false} LeafAt(t: Tree, path: seq<bool>)
    requires t.Leaf?
    ensures At(t, path) == t
    decreases |path|
  {
    if path != [] {
      LeafAt(t, path[1..]);
    }
  }

  /** One more step from an internal node follows its left or right
      pointer. */
  lemma {:induction false} AddrAtStep(mem: seq<Node>, p: nat, path: seq<bool>, d: bool)
    requires p < |mem|
    requires ValidPath(TreeOf(mem, p), path) && At(TreeOf(mem, p), path).Node?
    ensures AddrAt(mem, p, path) < |mem| && HasChildren(mem, AddrAt(mem, p, path))
    ensures var q := AddrAt(mem, p, path);
            AddrAt(mem, p, path + [d]) == if d then mem[q].right.value else mem[q].left.value
    decreases |path|
  {
    AddrAtTree(mem, p, path);
    if path == [] {
      assert [d][1..] == [];
    } else {
      assert (path + [d])[0] == path[0] && (path + [d])[1..] == path[1..] + [d];
      AddrAtStep(mem, if path[0] then mem[p].right.value else mem[p].left.value, path[1..], d);
    }
  }

  /** In a linked arena the node one step below `q` along `d` points back
      to `q`, and `q`'s left pointer is that node exactly when the step
      went left. */
  lemma {:induction false} ChildLinks(mem: seq<Node>, p: nat, path: seq<bool>, d: bool)
    requires GoodArena(mem) && p < |mem|
    requires ValidPath(TreeOf(mem, p), path) && At(TreeOf(mem, p), path).Node?
    ensures AddrAt(mem, p, path) < |mem| && AddrAt(mem, p, path + [d]) < |mem|
    ensures var q, c := AddrAt(mem, p, path), AddrAt(mem, p, path + [d]);
            mem[c].parent == Some(q) && (mem[q].left == Some(c) <==> !d) &&
            (mem[q].right == Some(c) <==> d)
  {
    AddrAtStep(mem, p, path, d);
    assert Linked(mem, AddrAt(mem, p, path));
  }

  /** Below a parentless root, only the root itself has no parent. */
  lemma {:induction false} RootParent(mem: seq<Node>, p: nat, path: seq<bool>)
    requires GoodArena(mem) && p < |mem| && mem[p].parent.None?
    requires ValidPath(TreeOf(mem, p), path)
    ensures AddrAt(mem, p, path) < |mem|
    ensures mem[AddrAt(mem, p, path)].parent.None? <==> path == []
  {
    AddrAtTree(mem, p, path);
    if path != [] {
      var up := path[..|path| - 1];
      assert path == up + [path[|path| - 1]];
      ValidAppend(TreeOf(mem, p), up, path[|path| - 1]);
      ChildLinks(mem, p, up, path[|path| - 1]);
    }
  }

  // ---------------------------------------------------------------------
  // The forest of parentless nodes

  /** What the parentless nodes below address `n` hold together: their
      addresses, the sum of their frequencies and the bytes at their
      leaves. */
  datatype Forest = Forest(roots: multiset<nat>, weight: nat, syms: multiset<byte>)

  ghost function ForestOf(mem: seq<Node>, n: nat): Forest
    requires n <= |mem|
    decreases n
  {
    if n == 0 then Forest(multiset{}, 0, multiset{})
    else
      var f := ForestOf(mem, n - 1);
      var q := n - 1;
      if mem[q].parent.None? then
        Forest(f.roots + multiset{q}, f.weight + mem[q].frequency, f.syms + Syms(TreeOf(mem, q)))
      else f
  }

  /** The forest of the whole arena. */
  ghost function WholeForest(mem: seq<Node>): Forest
  {
    ForestOf(mem, |mem|)
  }

  /** Each parentless address below `n` is a root once, and nothing else
      is. */
  lemma {:induction false} RootsOnce(mem: seq<Node>, n: nat, q: nat)
    requires n <= |mem|
    ensures ForestOf(mem, n).roots[q] == if q < n && mem[q].parent.None? then 1 else 0
    decreases n
  {
    if n > 0 {
      RootsOnce(mem, n - 1, q);
    }
  }

  /** The forest below `n` depends only on the nodes below `n`. */
  lemma {:induction false} ForestFrame(mem: seq<Node>, mem': seq<Node>, n: nat)
    requires n <= |mem| && n <= |mem'|
    requires forall q :: 0 <= q < n ==> mem'[q] == mem[q]
    ensures ForestOf(mem', n) == ForestOf(mem, n)
    decreases n
  {
    if n > 0 {
      ForestFrame(mem, mem', n - 1);
      forall q | 0 <= q <= n - 1 ensures Links(mem'[q]) == Links(mem[q]) {
      }
      SameLinks(mem, mem', n - 1);
    }
  }

  /** Giving the root `q` a parent takes it, its frequency and its tree's
      bytes out of the forest. */
  lemma {:induction false} Unroot(mem: seq<Node>, mem': seq<Node>, n: nat, q: nat, x: nat)
    requires q < n <= |mem| && mem[q].parent.None?
    requires mem' == mem[q := mem[q].(parent := Some(x))]
    ensures var a, b := ForestOf(mem, n), ForestOf(mem', n);
            a.roots == b.roots + multiset{q} && a.weight == b.weight + mem[q].frequency &&
            a.syms == b.syms + Syms(TreeOf(mem, q))
    decreases n
  {
    if n - 1 == q {
      ForestFrame(mem, mem', n - 1);
    } else {
      Unroot(mem, mem', n - 1, q, x);
      forall k | 0 <= k <= n - 1 ensures Links(mem'[k]) == Links(mem[k]) {
      }
      SameLinks(mem, mem', n - 1);
    }
  }

  /** Allocating a parentless node adds it to the forest as a root. */
  lemma {:induction false} AddRoot(mem: seq<Node>, node: Node)
    requires node.parent.None?
    ensures var a, b := ForestOf(mem, |mem|), ForestOf(mem + [node], |mem| + 1);
            b.roots == a.roots + multiset{|mem|} && b.weight == a.weight + node.frequency &&
            b.syms == a.syms + Syms(TreeOf(mem + [node], |mem|))
  {
    ForestFrame(mem, mem + [node], |mem|);
  }

  /** A forest without roots is empty. */
  lemma {:induction false} NoRoots(mem: seq<Node>, n: nat)
    requires n <= |mem| && ForestOf(mem, n).roots == multiset{}
    ensures ForestOf(mem, n).weight == 0 && ForestOf(mem, n).syms == multiset{}
    decreases n
  {
    if n > 0 {
      RootsOnce(mem, n, n - 1);
      NoRoots(mem, n - 1);
    }
  }

  /** A forest with a single root is that root's tree. */
  lemma {:induction false} SoleRoot(mem: seq<Node>, n: nat, r: nat)
    requires n <= |mem| && ForestOf(mem, n).roots == multiset{r}
    ensures r < n && mem[r].parent.None?
    ensures ForestOf(mem, n).weight == mem[r].frequency
    ensures ForestOf(mem, n).syms == Syms(TreeOf(mem, r))
    decreases n
  {
    assert ForestOf(mem, n).roots[r] == 1;
    RootsOnce(mem, n, r);
    var f := ForestOf(mem, n - 1);
    if mem[n - 1].parent.None? {
      RootsOnce(mem, n, n - 1);
      assert n - 1 == r;
      assert f.roots + multiset{r} == multiset{r};
      assert f.roots == multiset{};
      NoRoots(mem, n - 1);
    } else {
      SoleRoot(mem, n - 1, r);
    }
  }
}
