/** The Huffman code tree as a value: its shape, the root-to-node paths the
    codes are read from, the preorder walk that `get_alphabet` and
    `write_tree` perform, the serialisation `write_tree` emits and the code
    table `get_alphabet` fills in. Frequencies are kept in the arena nodes
    (see Arena), not here. */
module HuffTree {
  import opened Bits

  datatype Tree = Leaf(sym: byte) | Node(left: Tree, right: Tree)

  /** huff.c's `symbol`: a code of `size` bits, read from `code`'s low bits. */
  datatype Symbol = Symbol(code: nat, size: nat)

  function LeafCount(t: Tree): (n: nat)
    ensures n >= 1
  {
    match t
    case Leaf(_) => 1
    case Node(l, r) => LeafCount(l) + LeafCount(r)
  }

  /** The bytes at the leaves, with multiplicity. */
  function Syms(t: Tree): multiset<byte>
  {
    match t
    case Leaf(b) => multiset{b}
    case Node(l, r) => Syms(l) + Syms(r)
  }

  lemma {:induction false} SymsCount(t: Tree)
    ensures |Syms(t)| == LeafCount(t)
  {
    match t
    case Leaf(_) =>
    case Node(l, r) =>
      SymsCount(l);
      SymsCount(r);
  }

  /** No byte labels two leaves. */
  ghost predicate DistinctSyms(t: Tree)
  {
    forall b :: Syms(t)[b] <= 1
  }

  function Max(a: nat, b: nat): nat
  {
    if a < b then b else a
  }

  /** The depth of the deepest node; a lone leaf has height 0. */
  function Height(t: Tree): nat
  {
    match t
    case Leaf(_) => 0
    case Node(l, r) => 1 + Max(Height(l), Height(r))
  }

  // ---------------------------------------------------------------------
  // Paths from the root: `false` is a step to the left child, `true` to
  // the right one, first step first.

  function Child(t: Tree, d: bool): Tree
  {
    if t.Leaf? then t else if d then t.right else t.left
  }

  /** The subtree at the end of `path`. */
  function At(t: Tree, path: seq<bool>): Tree
    decreases |path|
  {
    if path == [] then t else At(Child(t, path[0]), path[1..])
  }

  /** Every step of `path` leaves an internal node. */
  predicate ValidPath(t: Tree, path: seq<bool>)
    decreases |path|
  {
    path == [] || (t.Node? && ValidPath(Child(t, path[0]), path[1..]))
  }

  /** `path` leads from the root to a leaf: the leaf's code. */
  predicate LeafPath(t: Tree, path: seq<bool>)
  {
    ValidPath(t, path) && At(t, path).Leaf?
  }

  lemma {:induction false} AtAppend(t: Tree, path: seq<bool>, d: bool)
    ensures At(t, path + [d]) == Child(At(t, path), d)
    decreases |path|
  {
    if path != [] {
      assert (path + [d])[1..] == path[1..] + [d];
      AtAppend(Child(t, path[0]), path[1..], d);
    }
  }

  lemma {:induction false} ValidAppend(t: Tree, path: seq<bool>, d: bool)
    ensures ValidPath(t, path + [d]) <==> ValidPath(t, path) && At(t, path).Node?
    decreases |path|
  {
    if path != [] {
      assert (path + [d])[1..] == path[1..] + [d];
      ValidAppend(Child(t, path[0]), path[1..], d);
    }
  }

  /** A path is no longer than the tree is high. */
  lemma {:induction false} PathWithinHeight(t: Tree, path: seq<bool>)
    requires ValidPath(t, path)
    ensures |path| <= Height(t)
    decreases |path|
  {
    if path != [] {
      PathWithinHeight(Child(t, path[0]), path[1..]);
    }
  }

  /** A proper prefix of a valid path ends at an internal node. */
  lemma {:induction false} PrefixIsInner(t: Tree, p: seq<bool>, q: seq<bool>)
    requires ValidPath(t, q) && p < q
    ensures At(t, p).Node?
    decreases |p|
  {
    if p != [] {
      assert p[1..] < q[1..];
      PrefixIsInner(Child(t, p[0]), p[1..], q[1..]);
    }
  }

  /** The codes are prefix-free: no leaf's path is a prefix of another
      leaf's path. */
  lemma {:induction false} LeafPathsPrefixFree(t: Tree, p: seq<bool>, q: seq<bool>)
    requires LeafPath(t, p) && LeafPath(t, q) && p <= q
    ensures p == q
  {
    if p < q {
      PrefixIsInner(t, p, q);
    }
  }

  // ---------------------------------------------------------------------
  // The preorder walk

  /** A step of the walk: an internal node or a leaf, with its path. */
  datatype Visit = Inner(path: seq<bool>) | LeafVisit(path: seq<bool>, sym: byte)

  /** The nodes of `t` in preorder; `base` is the path to `t`'s root. */
  function Preorder(t: Tree, base: seq<bool>): seq<Visit>
  {
    match t
    case Leaf(b) => [LeafVisit(base, b)]
    case Node(l, r) => [Inner(base)] + Preorder(l, base + [false]) + Preorder(r, base + [true])
  }

  /** The nodes that the walk reaches before the node at `path`. */
  function Before(t: Tree, base: seq<bool>, path: seq<bool>): seq<Visit>
    decreases |path|
  {
    if path == [] || t.Leaf? then []
    else if !path[0] then [Inner(base)] + Before(t.left, base + [false], path[1..])
    else [Inner(base)] + Preorder(t.left, base + [false]) + Before(t.right, base + [true], path[1..])
  }

  /** The nodes that the walk has reached once it is done with the
      subtree at `path`. */
  function Through(t: Tree, base: seq<bool>, path: seq<bool>): seq<Visit>
  {
    Before(t, base, path) + Preorder(At(t, path), base + path)
  }

  /** Descending to a left child records the internal node left. */
  lemma {:induction false} BeforeLeft(t: Tree, base: seq<bool>, path: seq<bool>)
    requires ValidPath(t, path) && At(t, path).Node?
    ensures Before(t, base, path + [false]) == Before(t, base, path) + [Inner(base + path)]
    decreases |path|
  {
    if path != [] {
      var p := path + [false];
      assert p[0] == path[0] && p[1..] == path[1..] + [false];
      if path[0] {
        BeforeLeft(t.right, base + [true], path[1..]);
        assert base + [true] + path[1..] == base + path;
      } else {
        BeforeLeft(t.left, base + [false], path[1..]);
        assert base + [false] + path[1..] == base + path;
      }
    } else {
      assert [false][1..] == [] && base + path == base;
    }
  }

  /** Before a right child come the internal node and all of the left
      subtree. */
  lemma {:induction false} BeforeRight(t: Tree, base: seq<bool>, path: seq<bool>)
    requires ValidPath(t, path) && At(t, path).Node?
    ensures Before(t, base, path + [true]) ==
            Before(t, base, path) + [Inner(base + path)] + Preorder(At(t, path).left, base + path + [false])
    decreases |path|
  {
    if path != [] {
      var p := path + [true];
      assert p[0] == path[0] && p[1..] == path[1..] + [true];
      if path[0] {
        BeforeRight(t.right, base + [true], path[1..]);
        assert base + [true] + path[1..] == base + path;
      } else {
        BeforeRight(t.left, base + [false], path[1..]);
        assert base + [false] + path[1..] == base + path;
      }
    } else {
      assert [true][1..] == [] && base + path == base;
    }
  }

  /** Done with a left child, the walk moves on to its sibling. */
  lemma {:induction false} ToSibling(t: Tree, base: seq<bool>, path: seq<bool>)
    requires ValidPath(t, path) && At(t, path).Node?
    ensures Before(t, base, path + [true]) == Through(t, base, path + [false])
  {
    BeforeLeft(t, base, path);
    BeforeRight(t, base, path);
    AtAppend(t, path, false);
    assert base + (path + [false]) == base + path + [false];
  }

  /** Done with a right child, the walk is done with its parent. */
  lemma {:induction false} ToParent(t: Tree, base: seq<bool>, path: seq<bool>)
    requires ValidPath(t, path) && At(t, path).Node?
    ensures Through(t, base, path + [true]) == Through(t, base, path)
  {
    var n, bp := At(t, path), base + path;
    var b := Before(t, base, path);
    var pl, pr := Preorder(n.left, bp + [false]), Preorder(n.right, bp + [true]);
    BeforeRight(t, base, path);
    AtAppend(t, path, true);
    assert base + (path + [true]) == bp + [true];
    assert Through(t, base, path + [true]) == Before(t, base, path + [true]) + pr;
    assert Before(t, base, path + [true]) == b + [Inner(bp)] + pl;
    assert Preorder(n, bp) == [Inner(bp)] + pl + pr;
  }

  /** On reaching a leaf the walk has visited it too. */
  lemma {:induction false} ThroughLeaf(t: Tree, base: seq<bool>, path: seq<bool>)
    requires At(t, path).Leaf?
    ensures Through(t, base, path) == Before(t, base, path) + [LeafVisit(base + path, At(t, path).sym)]
  {
  }

  /** From the root, the walk is done once it has visited the whole tree. */
  lemma {:induction false} ThroughRoot(t: Tree, base: seq<bool>)
    ensures Through(t, base, []) == Preorder(t, base)
  {
    assert base + [] == base;
  }

  // ---------------------------------------------------------------------
  // Serialisation: `0` for an internal node, then its left and right
  // subtrees; `1` and the byte's 8 bits, most significant first, for a leaf.

  function Serialize(t: Tree): seq<bool>
  {
    match t
    case Leaf(b) => [true] + ToBits(b, 8)
    case Node(l, r) => [false] + Serialize(l) + Serialize(r)
  }

  /** A tree of L leaves serialises to 10·L − 1 bits: 9 per leaf and one
      per each of the L − 1 internal nodes. */
  lemma {:induction false} SerializeLength(t: Tree)
    ensures |Serialize(t)| == 10 * LeafCount(t) - 1
  {
    match t
    case Leaf(_) =>
    case Node(l, r) =>
      SerializeLength(l);
      SerializeLength(r);
  }

  /** The bits written for one step of the walk. */
  function VisitBits(v: Visit): seq<bool>
  {
    match v
    case Inner(_) => [false]
    case LeafVisit(_, b) => [true] + ToBits(b, 8)
  }

  /** The bits written for a sequence of steps. */
  function SerOf(vs: seq<Visit>): seq<bool>
    decreases |vs|
  {
    if vs == [] then [] else VisitBits(vs[0]) + SerOf(vs[1..])
  }

  lemma {:induction false} SerOfAppend(a: seq<Visit>, b: seq<Visit>)
    ensures SerOf(a + b) == SerOf(a) + SerOf(b)
    decreases |a|
  {
    if a == [] {
      assert a + b == b;
    } else {
      assert (a + b)[0] == a[0] && (a + b)[1..] == a[1..] + b;
      SerOfAppend(a[1..], b);
    }
  }

  lemma {:induction false} SerOfOne(v: Visit)
    ensures SerOf([v]) == VisitBits(v)
  {
    assert [v][1..] == [];
  }

  /** The serialisation is what the walk writes, node by node. */
  lemma {:induction false} SerializeIsWalk(t: Tree, base: seq<bool>)
    ensures SerOf(Preorder(t, base)) == Serialize(t)
  {
    match t
    case Leaf(b) =>
      SerOfOne(LeafVisit(base, b));
    case Node(l, r) =>
      var pl, pr := Preorder(l, base + [false]), Preorder(r, base + [true]);
      SerOfAppend([Inner(base)] + pl, pr);
      SerOfAppend([Inner(base)], pl);
      SerOfOne(Inner(base));
      SerializeIsWalk(l, base + [false]);
      SerializeIsWalk(r, base + [true]);
  }

  // ---------------------------------------------------------------------
  // The code table: each leaf visited stores its path as a symbol

  /** The table after one step: a leaf stores its path, read as a number,
      and the path's length under its byte. */
  function Put(a: seq<Symbol>, v: Visit): (r: seq<Symbol>)
    requires |a| == 256
    ensures |r| == 256
  {
    match v
    case Inner(_) => a
    case LeafVisit(p, b) => a[b := Symbol(Value(p), |p|)]
  }

  /** The table after the walk's steps `vs`, in order, have been applied
      to `a`; a later leaf with the same byte overwrites an earlier one. */
  function Assign(a: seq<Symbol>, vs: seq<Visit>): (r: seq<Symbol>)
    requires |a| == 256
    ensures |r| == 256
    decreases |vs|
  {
    if vs == [] then a else Assign(Put(a, vs[0]), vs[1..])
  }

  lemma {:induction false} AssignAppend(a: seq<Symbol>, x: seq<Visit>, y: seq<Visit>)
    requires |a| == 256
    ensures Assign(a, x + y) == Assign(Assign(a, x), y)
    decreases |x|
  {
    if x == [] {
      assert x + y == y;
    } else {
      assert (x + y)[0] == x[0] && (x + y)[1..] == x[1..] + y;
      AssignAppend(Put(a, x[0]), x[1..], y);
    }
  }

  lemma {:induction false} AssignOne(a: seq<Symbol>, v: Visit)
    requires |a| == 256
    ensures Assign(a, [v]) == Put(a, v)
  {
    assert [v][1..] == [];
  }

  /** The walk's steps over a subtree, split at its root. */
  lemma {:induction false} AssignNode(a: seq<Symbol>, t: Tree, base: seq<bool>)
    requires |a| == 256 && t.Node?
    ensures Assign(a, Preorder(t, base)) ==
            Assign(Assign(a, Preorder(t.left, base + [false])), Preorder(t.right, base + [true]))
  {
    var pl, pr := Preorder(t.left, base + [false]), Preorder(t.right, base + [true]);
    AssignAppend(a, [Inner(base)] + pl, pr);
    AssignAppend(a, [Inner(base)], pl);
    AssignOne(a, Inner(base));
  }

  /** The walk over `t` leaves the entries of bytes absent from `t`
      untouched. */
  lemma {:induction false} AssignKeeps(a: seq<Symbol>, t: Tree, base: seq<bool>, b: byte)
    requires |a| == 256 && b !in Syms(t)
    ensures Assign(a, Preorder(t, base))[b] == a[b]
    decreases t
  {
    match t
    case Leaf(_) =>
      AssignOne(a, LeafVisit(base, t.sym));
    case Node(l, r) =>
      AssignNode(a, t, base);
      AssignKeeps(a, l, base + [false], b);
      AssignKeeps(Assign(a, Preorder(l, base + [false])), r, base + [true], b);
  }

  /** With distinct leaf bytes, the walk stores into each leaf's entry
      the leaf's path read as a number and its length. */
  lemma {:induction false} AssignCodes(a: seq<Symbol>, t: Tree, base: seq<bool>, path: seq<bool>)
    requires |a| == 256 && DistinctSyms(t) && LeafPath(t, path)
    ensures Assign(a, Preorder(t, base))[At(t, path).sym] == Symbol(Value(base + path), |base + path|)
    decreases t
  {
    match t
    case Leaf(b) =>
      assert path == [] && base + path == base;
      AssignOne(a, LeafVisit(base, b));
    case Node(l, r) =>
      var a1 := Assign(a, Preorder(l, base + [false]));
      AssignNode(a, t, base);
      var c := Child(t, path[0]);
      var s := At(c, path[1..]).sym;
      assert At(t, path) == At(c, path[1..]);
      assert base + path == base + [path[0]] + path[1..];
      assert DistinctSyms(c) by {
        forall x ensures Syms(c)[x] <= 1 {
          assert Syms(t)[x] == Syms(l)[x] + Syms(r)[x];
        }
      }
      if path[0] {
        AssignCodes(a1, r, base + [true], path[1..]);
      } else {
        AssignCodes(a, l, base + [false], path[1..]);
        LeafSym(l, path[1..]);
        assert Syms(t)[s] == Syms(l)[s] + Syms(r)[s];
        AssignKeeps(a1, r, base + [true], s);
      }
  }

  /** The bits of a code, first bit first: the low `size` bits of `code`,
      most significant first. */
  function CodeBits(s: Symbol): (r: seq<bool>)
    ensures |r| == s.size
  {
    ToBits(s.code, s.size)
  }

  /** With distinct leaf bytes, the walk leaves under each leaf's byte a
      code whose bits are the leaf's path. */
  lemma {:induction false} CodeIsPath(a: seq<Symbol>, t: Tree, path: seq<bool>)
    requires |a| == 256 && DistinctSyms(t) && LeafPath(t, path)
    ensures CodeBits(Assign(a, Preorder(t, []))[At(t, path).sym]) == path
  {
    AssignCodes(a, t, [], path);
    assert [] + path == path;
    ToBitsOfValue(path);
  }

  /** Every byte of the tree labels a leaf, reached by some path. */
  lemma {:induction false} PathTo(t: Tree, b: byte) returns (path: seq<bool>)
    requires b in Syms(t)
    ensures LeafPath(t, path) && At(t, path).sym == b
    decreases t
  {
    match t
    case Leaf(_) =>
      path := [];
    case Node(l, r) =>
      var d := b !in Syms(l);
      var rest := PathTo(Child(t, d), b);
      path := [d] + rest;
      assert path[0] == d && path[1..] == rest;
  }

  /** The code table is prefix-free: the code of one byte of the tree is
      never a prefix of the code of another. */
  lemma {:induction false} CodesPrefixFree(a: seq<Symbol>, t: Tree, b1: byte, b2: byte)
    requires |a| == 256 && DistinctSyms(t) && b1 in Syms(t) && b2 in Syms(t) && b1 != b2
    ensures !(CodeBits(Assign(a, Preorder(t, []))[b1]) <= CodeBits(Assign(a, Preorder(t, []))[b2]))
  {
    var p1 := PathTo(t, b1);
    var p2 := PathTo(t, b2);
    CodeIsPath(a, t, p1);
    CodeIsPath(a, t, p2);
    if p1 <= p2 {
      LeafPathsPrefixFree(t, p1, p2);
    }
  }

  /** The byte at the end of a leaf path labels a leaf of the tree. */
  lemma {:induction false} LeafSym(t: Tree, path: seq<bool>)
    requires LeafPath(t, path)
    ensures At(t, path).sym in Syms(t)
    decreases |path|
  {
    if path != [] {
      LeafSym(Child(t, path[0]), path[1..]);
    }
  }

  // ---------------------------------------------------------------------
  // Depth of the walk's steps

  /** Every step in `vs` is at depth at most `k`. */
  ghost predicate AllWithin(vs: seq<Visit>, k: nat)
  {
    forall i :: 0 <= i < |vs| ==> |vs[i].path| <= k
  }

  lemma {:induction false} AllWithinAppend(a: seq<Visit>, b: seq<Visit>, k: nat)
    ensures AllWithin(a + b, k) <==> AllWithin(a, k) && AllWithin(b, k)
  {
    if AllWithin(a, k) && AllWithin(b, k) {
      forall i | 0 <= i < |a + b| ensures |(a + b)[i].path| <= k {
        if i >= |a| {
          assert (a + b)[i] == b[i - |a|];
        }
      }
    }
    if AllWithin(a + b, k) {
      forall i | 0 <= i < |a| ensures |a[i].path| <= k {
        assert (a + b)[i] == a[i];
      }
      forall i | 0 <= i < |b| ensures |b[i].path| <= k {
        assert (a + b)[|a| + i] == b[i];
      }
    }
  }

  /** The walk over a tree stays within depth `k` exactly when the tree's
      deepest node does. */
  lemma {:induction false} PreorderWithin(t: Tree, base: seq<bool>, k: nat)
    ensures AllWithin(Preorder(t, base), k) <==> |base| + Height(t) <= k
  {
    match t
    case Leaf(b) =>
      assert [LeafVisit(base, b)][0].path == base;
    case Node(l, r) =>
      var pl, pr := Preorder(l, base + [false]), Preorder(r, base + [true]);
      PreorderWithin(l, base + [false], k);
      PreorderWithin(r, base + [true], k);
      AllWithinAppend([Inner(base)] + pl, pr, k);
      AllWithinAppend([Inner(base)], pl, k);
      assert [Inner(base)][0].path == base;
  }
}
