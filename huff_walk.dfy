/** `get_alphabet` and `write_tree` of huff.c: the two iterative preorder
    walks over the finished tree, which move through the `left`, `right`
    and `parent` pointers with a `dir` flag ("coming back up") instead of
    a stack. Both are proved against the preorder walk of the tree that
    the arena holds at the root. */
module HuffWalk {
  import opened Bits
  import opened HeapNodes
  import opened HuffTree
  import opened Arena

  /** `BIT_LIMIT`: the longest code a `uint32_t` can hold. */
  const BitLimit: nat := 32

  /** The arena holds a finished tree at `root`: every node is linked and
      the root has no parent. */
  ghost predicate Finished(mem: seq<Node>, root: nat)
  {
    GoodArena(mem) && root < |mem| && mem[root].parent.None?
  }

  /** What the walk has visited: everything before the node at `path`, and
      the node's whole subtree too once `dir` says the walk is on its way
      back up. */
  function Done(t: Tree, path: seq<bool>, dir: bool): seq<Visit>
  {
    if dir then Through(t, [], path) else Before(t, [], path)
  }

  // ---------------------------------------------------------------------
  // Moving through the pointers

  /** At the node reached along `path`: it is a leaf exactly when the tree
      there is a leaf, and it has no parent exactly at the root. */
  lemma {:induction false} Here(mem: seq<Node>, root: nat, path: seq<bool>)
    requires Finished(mem, root) && ValidPath(TreeOf(mem, root), path)
    ensures AddrAt(mem, root, path) < |mem|
    ensures var q := AddrAt(mem, root, path);
            (IsLeaf(mem[q]) <==> At(TreeOf(mem, root), path).Leaf?) &&
            (mem[q].parent.None? <==> path == []) &&
            (IsLeaf(mem[q]) ==> At(TreeOf(mem, root), path) == Leaf(mem[q].byte)) &&
            (mem[q].parent.Some? ==> mem[q].parent.value < |mem|)
  {
    if path != [] {
      Up(mem, root, path);
    }
    AddrAtTree(mem, root, path);
    TreeOfNode(mem, AddrAt(mem, root, path));
    RootParent(mem, root, path);
  }

  /** From an internal node, `left` leads one step left. */
  lemma {:induction false} Down(mem: seq<Node>, root: nat, path: seq<bool>)
    requires Finished(mem, root) && ValidPath(TreeOf(mem, root), path)
    requires At(TreeOf(mem, root), path).Node?
    ensures ValidPath(TreeOf(mem, root), path + [false])
    ensures AddrAt(mem, root, path) < |mem| && AddrAt(mem, root, path + [false]) < |mem|
    ensures mem[AddrAt(mem, root, path)].left == Some(AddrAt(mem, root, path + [false]))
  {
    AddrAtStep(mem, root, path, false);
    ValidAppend(TreeOf(mem, root), path, false);
    AddrAtTree(mem, root, path + [false]);
  }

  /** Below the root, `parent` leads one step up, the parent's `left` is
      the node exactly when the last step went left, and the parent's
      `right` leads to the right sibling. */
  lemma {:induction false} Up(mem: seq<Node>, root: nat, path: seq<bool>)
    requires Finished(mem, root) && ValidPath(TreeOf(mem, root), path) && path != []
    ensures var up, d := path[..|path| - 1], path[|path| - 1];
            path == up + [d] &&
            ValidPath(TreeOf(mem, root), up) && At(TreeOf(mem, root), up).Node? &&
            ValidPath(TreeOf(mem, root), up + [true])
    ensures var up, d := path[..|path| - 1], path[|path| - 1];
            var q, u := AddrAt(mem, root, path), AddrAt(mem, root, up);
            q < |mem| && u < |mem| && AddrAt(mem, root, up + [true]) < |mem| &&
            mem[q].parent == Some(u) &&
            (mem[u].left == Some(q) <==> !d) && (mem[u].right == Some(q) <==> d) &&
            mem[u].right == Some(AddrAt(mem, root, up + [true]))
  {
    var t := TreeOf(mem, root);
    var up, d := path[..|path| - 1], path[|path| - 1];
    assert path == up + [d];
    ValidAppend(t, up, d);
    ChildLinks(mem, root, up, d);
    AddrAtStep(mem, root, up, true);
    ValidAppend(t, up, true);
    AddrAtTree(mem, root, up + [true]);
  }

  // ---------------------------------------------------------------------
  // Moving through the preorder walk

  /** One step down the path: the internal node, the left subtree when the
      step goes right, and the walk through the child. */
  lemma {:induction false} ThroughStep(t: Tree, base: seq<bool>, path: seq<bool>)
    requires ValidPath(t, path) && path != []
    ensures path[0] ==> (Through(t, base, path)
      == [Inner(base)] + Preorder(t.left, base + [false]) + Through(t.right, base + [true], path[1..]))
    ensures !path[0] ==> (Through(t, base, path)
      == [Inner(base)] + Through(t.left, base + [false], path[1..]))
  {
    var c, cb, p := Child(t, path[0]), base + [path[0]], path[1..];
    var sub := Preorder(At(c, p), cb + p);
    assert Preorder(At(t, path), base + path) == sub by {
      assert cb + p == base + path;
      assert At(t, path) == At(c, p);
    }
    var skipped := if path[0] then Preorder(t.left, base + [false]) else [];
    assert Before(t, base, path) == [Inner(base)] + skipped + Before(c, cb, p);
    VisitsRegroup([Inner(base)] + skipped, Before(c, cb, p), sub);
    if !path[0] {
      assert [Inner(base)] + skipped == [Inner(base)];
    }
  }

  /** The walk never runs past the whole tree. */
  lemma {:induction false} ThroughBound(t: Tree, base: seq<bool>, path: seq<bool>)
    requires ValidPath(t, path)
    ensures |Before(t, base, path)| < |Through(t, base, path)| <= |Preorder(t, base)|
    decreases |path|
  {
    if path != [] {
      ThroughBound(Child(t, path[0]), base + [path[0]], path[1..]);
      ThroughStep(t, base, path);
    } else {
      assert base + path == base;
    }
  }

  /** What the walk has visited is a prefix of the whole walk. */
  lemma {:induction false} ThroughPrefix(t: Tree, base: seq<bool>, path: seq<bool>) returns (rest: seq<Visit>)
    requires ValidPath(t, path)
    ensures Preorder(t, base) == Through(t, base, path) + rest
    decreases |path|
  {
    if path == [] {
      assert base + path == base;
      rest := [];
    } else {
      var r := ThroughPrefix(Child(t, path[0]), base + [path[0]], path[1..]);
      ThroughStep(t, base, path);
      var head, pl, pr := [Inner(base)], Preorder(t.left, base + [false]), Preorder(t.right, base + [true]);
      if path[0] {
        VisitsRegroup(head + pl, Through(t.right, base + [true], path[1..]), r);
        rest := r;
      } else {
        var tl := Through(t.left, base + [false], path[1..]);
        VisitsRegroup(head, tl, r);
        VisitsRegroup(head + tl, r, pr);
        rest := r + pr;
      }
    }
  }

  lemma {:induction false} VisitsRegroup(a: seq<Visit>, b: seq<Visit>, c: seq<Visit>)
    ensures a + (b + c) == (a + b) + c
  {
  }

  /** The bits written for what the walk has visited never exceed the
      whole serialization. */
  lemma {:induction false} SerBound(t: Tree, path: seq<bool>)
    requires ValidPath(t, path)
    ensures |SerOf(Before(t, [], path))| <= |SerOf(Through(t, [], path))| <= |Serialize(t)|
  {
    var rest := ThroughPrefix(t, [], path);
    SerOfAppend(Through(t, [], path), rest);
    SerOfAppend(Before(t, [], path), Preorder(At(t, path), [] + path));
    SerializeIsWalk(t, []);
  }

  /** Visiting the leaf at `path` stores its code and length. */
  lemma {:induction false} VisitLeaf(a: seq<Symbol>, t: Tree, path: seq<bool>)
    requires |a| == 256 && At(t, path).Leaf?
    ensures Assign(a, Through(t, [], path)) ==
            Assign(a, Before(t, [], path))[At(t, path).sym := Symbol(Value(path), |path|)]
    ensures AllWithin(Through(t, [], path), |path|) <== AllWithin(Before(t, [], path), |path|)
  {
    var b := Before(t, [], path);
    var v := LeafVisit([] + path, At(t, path).sym);
    ThroughLeaf(t, [], path);
    assert [] + path == path;
    AssignAppend(a, b, [v]);
    AssignOne(Assign(a, b), v);
    AllWithinAppend(b, [v], |path|);
    assert [v][0].path == path;
  }

  /** Descending to the left child visits the internal node, which stores
      nothing. */
  lemma {:induction false} VisitInner(a: seq<Symbol>, t: Tree, path: seq<bool>, k: nat)
    requires |a| == 256 && ValidPath(t, path) && At(t, path).Node?
    ensures Assign(a, Before(t, [], path + [false])) == Assign(a, Before(t, [], path))
    ensures |Before(t, [], path)| < |Before(t, [], path + [false])|
    ensures AllWithin(Before(t, [], path), k) && |path| <= k ==> AllWithin(Before(t, [], path + [false]), k)
  {
    var b := Before(t, [], path);
    var v := Inner([] + path);
    BeforeLeft(t, [], path);
    AssignAppend(a, b, [v]);
    AssignOne(Assign(a, b), v);
    AllWithinAppend(b, [v], k);
    assert [] + path == path && [v][0].path == path;
  }

  // ---------------------------------------------------------------------
  // The code register

  /** `code ^ 1` on an unsigned value. */
  function Xor1(x: nat): nat
  {
    if x % 2 == 1 then x - 1 else x + 1
  }

  /** `code <<= 1` on a `uint32_t` appends a `0` step while the path fits
      in 32 bits. */
  lemma {:induction false} CodeDown(path: seq<bool>)
    requires |path| < BitLimit
    ensures Low(Shl(Value(path), 1), 32) == Value(path + [false])
  {
    ValueAppend(path, [false]);
    assert Value([false]) == 0 by {
      assert [false][..0] == [];
    }
    ValueBound(path + [false]);
    Pow2Mono(|path| + 1, 32);
    LowOfSmall(Value(path + [false]), 32);
  }

  /** `code |= 1` turns a `0` last step into a `1`. */
  lemma {:induction false} CodeSibling(up: seq<bool>)
    ensures BitOr(Value(up + [false]), 1) == Value(up + [true])
  {
    assert (up + [false])[..|up|] == up && (up + [true])[..|up|] == up;
    OrDisjoint(Value(up + [false]), 1, 1);
  }

  /** `code = (code ^ 1) >> 1` drops a `1` last step. */
  lemma {:induction false} CodeUp(up: seq<bool>)
    ensures Shr(Xor1(Value(up + [true])), 1) == Value(up)
  {
    var v := Value(up);
    assert Value(up + [true]) == 2 * v + 1 by {
      assert (up + [true])[..|up|] == up;
    }
    assert Xor1(2 * v + 1) == 2 * v;
    assert Shr(2 * v, 1) == Shr(v, 0) == v;
  }

  // ---------------------------------------------------------------------
  // get_alphabet

  /** The walk is on its way back up from the node at `path` (`dir` is
      set): the node's whole subtree has been stored, and `code` holds the
      path. */
  ghost predicate Rising(mem: seq<Node>, root: nat, a0: seq<Symbol>, alphabet: seq<Symbol>,
                         q: nat, path: seq<bool>, code: nat)
    requires Finished(mem, root) && |a0| == 256
  {
    var t := TreeOf(mem, root);
    ValidPath(t, path) && q == AddrAt(mem, root, path) &&
    |path| <= BitLimit && code == Value(path) &&
    alphabet == Assign(a0, Through(t, [], path)) && AllWithin(Through(t, [], path), BitLimit) &&
    |Through(t, [], path)| <= |Preorder(t, [])|
  }

  /** The state at the top of `get_alphabet`'s loop. Going down, `code`
      follows the path until the path is one step too long for the bit
      limit, which the next round rejects. */
  ghost predicate AlphabetWalk(mem: seq<Node>, root: nat, a0: seq<Symbol>, alphabet: seq<Symbol>,
                               tree: Ptr, path: seq<bool>, dir: bool, code: nat, size: nat)
    requires Finished(mem, root) && |a0| == 256
  {
    var t := TreeOf(mem, root);
    tree.Some? && size == |path| &&
    if dir then Rising(mem, root, a0, alphabet, tree.value, path, code) && At(t, path).Node?
    else
      ValidPath(t, path) && tree.value == AddrAt(mem, root, path) && |path| <= BitLimit + 1 &&
      (|path| <= BitLimit ==> code == Value(path)) &&
      alphabet == Assign(a0, Before(t, [], path)) && AllWithin(Before(t, [], path), BitLimit) &&
      |Before(t, [], path)| < |Preorder(t, [])|
  }

  /** `tree = tree->left; code <<= 1; size++` at an internal node. */
  lemma {:induction false} Descend(mem: seq<Node>, root: nat, a0: seq<Symbol>, alphabet: seq<Symbol>,
                q: nat, path: seq<bool>, code: nat)
    requires Finished(mem, root) && |a0| == 256
    requires AlphabetWalk(mem, root, a0, alphabet, Some(q), path, false, code, |path|)
    requires |path| <= BitLimit && q < |mem| && !IsLeaf(mem[q])
    ensures AlphabetWalk(mem, root, a0, alphabet, mem[q].left, path + [false], false,
                         Low(Shl(code, 1), 32), |path| + 1)
    ensures |Before(TreeOf(mem, root), [], path)| < |Before(TreeOf(mem, root), [], path + [false])|
  {
    var t := TreeOf(mem, root);
    Here(mem, root, path);
    Down(mem, root, path);
    VisitInner(a0, t, path, BitLimit);
    ThroughBound(t, [], path + [false]);
    if |path| < BitLimit {
      CodeDown(path);
    }
  }

  /** At a leaf with no parent, the tree is that one leaf and storing it
      completes the table. */
  lemma {:induction false} LeafRoot(mem: seq<Node>, root: nat, a0: seq<Symbol>, alphabet: seq<Symbol>,
                 q: nat, path: seq<bool>, code: nat)
    requires Finished(mem, root) && |a0| == 256
    requires AlphabetWalk(mem, root, a0, alphabet, Some(q), path, false, code, |path|)
    requires |path| <= BitLimit && q < |mem| && IsLeaf(mem[q]) && mem[q].parent.None?
    ensures alphabet[mem[q].byte := Symbol(code, |path|)] == Assign(a0, Preorder(TreeOf(mem, root), []))
    ensures AllWithin(Preorder(TreeOf(mem, root), []), BitLimit)
  {
    var t := TreeOf(mem, root);
    Here(mem, root, path);
    VisitLeaf(a0, t, path);
    ThroughRoot(t, []);
  }

  /** At a left leaf: store it and move to its right sibling with
      `code |= 1`. */
  lemma {:induction false} LeafSibling(mem: seq<Node>, root: nat, a0: seq<Symbol>, alphabet: seq<Symbol>,
                    q: nat, path: seq<bool>, code: nat, u: nat)
    requires Finished(mem, root) && |a0| == 256
    requires AlphabetWalk(mem, root, a0, alphabet, Some(q), path, false, code, |path|)
    requires |path| <= BitLimit && q < |mem| && IsLeaf(mem[q])
    requires mem[q].parent == Some(u) && u < |mem| && mem[u].left == Some(q)
    ensures path != []
    ensures AlphabetWalk(mem, root, a0, alphabet[mem[q].byte := Symbol(code, |path|)], mem[u].right,
                         path[..|path| - 1] + [true], false, BitOr(code, 1), |path|)
    ensures |Before(TreeOf(mem, root), [], path)| < |Before(TreeOf(mem, root), [], path[..|path| - 1] + [true])|
  {
    var t := TreeOf(mem, root);
    Here(mem, root, path);
    VisitLeaf(a0, t, path);
    Up(mem, root, path);
    var up := path[..|path| - 1];
    ToSibling(t, [], up);
    CodeSibling(up);
    ThroughBound(t, [], path);
    ThroughBound(t, [], up + [true]);
  }

  /** At a right leaf: store it and turn back up (`dir = true`). */
  lemma {:induction false} LeafRises(mem: seq<Node>, root: nat, a0: seq<Symbol>, alphabet: seq<Symbol>,
                  q: nat, path: seq<bool>, code: nat)
    requires Finished(mem, root) && |a0| == 256
    requires AlphabetWalk(mem, root, a0, alphabet, Some(q), path, false, code, |path|)
    requires |path| <= BitLimit && q < |mem| && IsLeaf(mem[q])
    ensures Rising(mem, root, a0, alphabet[mem[q].byte := Symbol(code, |path|)], q, path, code)
    ensures |Before(TreeOf(mem, root), [], path)| < |Through(TreeOf(mem, root), [], path)|
  {
    var t := TreeOf(mem, root);
    Here(mem, root, path);
    VisitLeaf(a0, t, path);
    ThroughBound(t, [], path);
  }

  /** Rising out of the root: the walk is complete. */
  lemma {:induction false} RiseRoot(mem: seq<Node>, root: nat, a0: seq<Symbol>, alphabet: seq<Symbol>,
                 q: nat, path: seq<bool>, code: nat)
    requires Finished(mem, root) && |a0| == 256
    requires Rising(mem, root, a0, alphabet, q, path, code)
    requires q < |mem| && mem[q].parent.None?
    ensures alphabet == Assign(a0, Preorder(TreeOf(mem, root), []))
    ensures AllWithin(Preorder(TreeOf(mem, root), []), BitLimit)
  {
    Here(mem, root, path);
    ThroughRoot(TreeOf(mem, root), []);
  }

  /** Rising out of a right child: `tree = tree->parent;
      code = (code ^ 1) >> 1; size--`, still rising. */
  lemma {:induction false} RiseUp(mem: seq<Node>, root: nat, a0: seq<Symbol>, alphabet: seq<Symbol>,
               q: nat, path: seq<bool>, code: nat, u: nat)
    requires Finished(mem, root) && |a0| == 256
    requires Rising(mem, root, a0, alphabet, q, path, code)
    requires q < |mem| && mem[q].parent == Some(u) && u < |mem| && mem[u].right == Some(q)
    ensures path != []
    ensures AlphabetWalk(mem, root, a0, alphabet, Some(u), path[..|path| - 1], true,
                         Shr(Xor1(code), 1), |path| - 1)
    ensures Through(TreeOf(mem, root), [], path[..|path| - 1]) == Through(TreeOf(mem, root), [], path)
  {
    var t := TreeOf(mem, root);
    Here(mem, root, path);
    Up(mem, root, path);
    var up := path[..|path| - 1];
    ToParent(t, [], up);
    CodeUp(up);
  }

  /** Rising out of a left child: move to its right sibling with
      `code |= 1` and go down again. */
  lemma {:induction false} RiseSibling(mem: seq<Node>, root: nat, a0: seq<Symbol>, alphabet: seq<Symbol>,
                    q: nat, path: seq<bool>, code: nat, u: nat)
    requires Finished(mem, root) && |a0| == 256
    requires Rising(mem, root, a0, alphabet, q, path, code)
    requires q < |mem| && mem[q].parent == Some(u) && u < |mem| && mem[u].right != Some(q)
    ensures path != []
    ensures AlphabetWalk(mem, root, a0, alphabet, mem[u].right, path[..|path| - 1] + [true], false,
                         BitOr(code, 1), |path|)
    ensures Before(TreeOf(mem, root), [], path[..|path| - 1] + [true]) == Through(TreeOf(mem, root), [], path)
  {
    var t := TreeOf(mem, root);
    Here(mem, root, path);
    Up(mem, root, path);
    var up := path[..|path| - 1];
    ToSibling(t, [], up);
    CodeSibling(up);
    ThroughBound(t, [], up + [true]);
  }

  /** `get_alphabet`: walks the tree in preorder through the pointers and
      stores each leaf's code and code length in `alphabet`; gives up with
      -1 as soon as the walk is deeper than `BIT_LIMIT`. On success the
      table is the preorder walk's assignment, which `AssignCodes` and
      `AssignKeeps` read as "each symbol's path, nothing else touched". */
  method GetAlphabet(mem: seq<Node>, root: nat, alphabet: array<Symbol>) returns (ret: int)
    requires Finished(mem, root) && alphabet.Length == 256
    modifies alphabet
    ensures ret == 0 || ret == -1
    ensures ret == -1 <==> Height(TreeOf(mem, root)) > BitLimit
    ensures ret == 0 ==> alphabet[..] == Assign(old(alphabet[..]), Preorder(TreeOf(mem, root), []))
  {
    ghost var t := TreeOf(mem, root);
    ghost var a0 := alphabet[..];
    ghost var path: seq<bool> := [];
    var tree: Ptr := Some(root);
    var code: nat := 0;
    var size: nat := 0;
    var dir := false;
    ThroughBound(t, [], []);
    while tree.Some?
      invariant AlphabetWalk(mem, root, a0, alphabet[..], tree, path, dir, code, size)
      decreases |Preorder(t, [])| - |Done(t, path, dir)|, if dir then 1 else 0, |path|
    {
      var q := tree.value;
      Here(mem, root, path);
      if size > BitLimit {
        PathWithinHeight(t, path);
        return -1;
      }
      if IsLeaf(mem[q]) {
        ghost var before := alphabet[..];
        alphabet[mem[q].byte] := Symbol(code, size);
        if mem[q].parent.None? {
          LeafRoot(mem, root, a0, before, q, path, code);
          break;
        }
        var u := mem[q].parent.value;
        if mem[u].left == tree {
          LeafSibling(mem, root, a0, before, q, path, code, u);
          tree := mem[u].right;
          code := BitOr(code, 1);
          path := path[..|path| - 1] + [true];
          continue;
        }
        LeafRises(mem, root, a0, before, q, path, code);
        dir := true;
      } else if !dir {
        Descend(mem, root, a0, alphabet[..], q, path, code);
        tree := mem[q].left;
        code := Low(Shl(code, 1), 32);
        size := size + 1;
        path := path + [false];
        continue;
      }
      if dir {
        if mem[q].parent.None? {
          RiseRoot(mem, root, a0, alphabet[..], q, path, code);
          break;
        }
        var u := mem[q].parent.value;
        if mem[u].right == tree {
          RiseUp(mem, root, a0, alphabet[..], q, path, code, u);
          tree := Some(u);
          code := Shr(Xor1(code), 1);
          size := size - 1;
          path := path[..|path| - 1];
        } else {
          RiseSibling(mem, root, a0, alphabet[..], q, path, code, u);
          tree := mem[u].right;
          code := BitOr(code, 1);
          path := path[..|path| - 1] + [true];
          dir := false;
        }
      }
    }
    PreorderWithin(t, [], BitLimit);
    return 0;
  }
}
