/** `get_stat` and `build_tree` of huff.c: counting the bytes of the input,
    loading one leaf per present byte into the heap, and merging the two
    least frequent trees until one is left. */
module HuffBuild {
  import opened Bits
  import opened HeapNodes
  import opened HuffTree
  import opened Arena
  import opened BHeap

  /** The number of occurrences of `b` in `input`. */
  function Count(input: seq<byte>, b: byte): nat
  {
    if input == [] then 0
    else Count(input[..|input| - 1], b) + if input[|input| - 1] == b then 1 else 0
  }

  /** The count is the multiplicity of `b` in the input. */
  lemma {:induction false} CountIsMultiplicity(input: seq<byte>, b: byte)
    ensures Count(input, b) == multiset(input)[b]
  {
    if input != [] {
      var init := input[..|input| - 1];
      assert input == init + [input[|input| - 1]];
      CountIsMultiplicity(init, b);
    }
  }

  /** The leaves `get_stat` creates for the bytes below `i`, in byte
      order: one per byte that occurs, carrying its count. */
  function Leaves(input: seq<byte>, i: nat): seq<Node>
    requires i <= 256
  {
    if i == 0 then []
    else
      var b: byte := i - 1;
      Leaves(input, i - 1) +
        (if Count(input, b) > 0 then [Node.Node(Count(input, b), None, None, None, b)] else [])
  }

  /** The bytes below `i` that occur in `input`, each once. */
  function Present(input: seq<byte>, i: nat): multiset<byte>
    requires i <= 256
  {
    if i == 0 then multiset{}
    else
      var b: byte := i - 1;
      Present(input, i - 1) + (if Count(input, b) > 0 then multiset{b} else multiset{})
  }

  /** The total count of the bytes below `i`. */
  function Weight(input: seq<byte>, i: nat): nat
    requires i <= 256
  {
    if i == 0 then 0 else Weight(input, i - 1) + Count(input, i - 1)
  }

  /** The addresses `0..n - 1`. */
  function Below(n: nat): multiset<nat>
  {
    if n == 0 then multiset{} else Below(n - 1) + multiset{n - 1}
  }

  /** Each byte that occurs in `input` is present once; no other byte is. */
  lemma {:induction false} PresentOnce(input: seq<byte>, i: nat, b: byte)
    requires i <= 256
    ensures Present(input, i)[b] == if b < i && b in input then 1 else 0
  {
    if i > 0 {
      PresentOnce(input, i - 1, b);
      CountIsMultiplicity(input, b);
    }
  }

  /** Adding one byte to the input adds one to the total count of the
      bytes range it falls in. */
  lemma {:induction false} WeightSnoc(s: seq<byte>, x: byte, i: nat)
    requires i <= 256
    ensures Weight(s + [x], i) == Weight(s, i) + if x < i then 1 else 0
  {
    if i > 0 {
      WeightSnoc(s, x, i - 1);
      assert (s + [x])[..|s|] == s;
    }
  }

  /** The counts of all 256 bytes add up to the input's length. */
  lemma {:induction false} WeightAll(s: seq<byte>)
    ensures Weight(s, 256) == |s|
  {
    if s == [] {
      WeightEmpty(256);
    } else {
      var t := s[..|s| - 1];
      assert s == t + [s[|s| - 1]];
      WeightAll(t);
      WeightSnoc(t, s[|s| - 1], 256);
    }
  }

  lemma {:induction false} WeightEmpty(i: nat)
    requires i <= 256
    ensures Weight([], i) == 0
  {
    if i > 0 {
      WeightEmpty(i - 1);
    }
  }

  /** Every node `get_stat` creates is a parentless leaf. */
  lemma {:induction false} LeavesAreLeaves(input: seq<byte>, i: nat)
    requires i <= 256
    ensures forall q :: 0 <= q < |Leaves(input, i)| ==>
              IsLeaf(Leaves(input, i)[q]) && Leaves(input, i)[q].parent.None?
  {
    if i > 0 {
      LeavesAreLeaves(input, i - 1);
      var prev, mem := Leaves(input, i - 1), Leaves(input, i);
      assert forall q :: 0 <= q < |prev| ==> mem[q] == prev[q];
    }
  }

  /** The leaves of `get_stat` form a linked arena. */
  lemma {:induction false} LeavesLinked(input: seq<byte>, i: nat)
    requires i <= 256
    ensures GoodArena(Leaves(input, i))
  {
    LeavesAreLeaves(input, i);
    var mem := Leaves(input, i);
    forall q | 0 <= q < |mem| ensures Linked(mem, q) {
      assert IsLeaf(mem[q]);
    }
  }

  /** At most one byte is present per byte value, and an input that is
      not empty has some byte present. */
  lemma {:induction false} PresentSize(input: seq<byte>, i: nat)
    requires i <= 256
    ensures |Present(input, i)| <= i
    ensures i == 256 && input != [] ==> |Present(input, i)| >= 1
  {
    if i > 0 {
      PresentSize(input, i - 1);
    }
    if i == 256 && input != [] {
      PresentOnce(input, 256, input[0]);
    }
  }

  /** One leaf per present byte. */
  lemma {:induction false} LeavesCount(input: seq<byte>, i: nat)
    requires i <= 256
    ensures |Leaves(input, i)| == |Present(input, i)|
  {
    if i > 0 {
      LeavesCount(input, i - 1);
    }
  }

  /** One step of the leaves, the present bytes and the total count. */
  lemma {:induction false} LeavesStep(input: seq<byte>, i: nat)
    requires 0 < i <= 256
    ensures var b: byte := i - 1;
            var c := Count(input, b);
            (c > 0 ==> Leaves(input, i) == Leaves(input, i - 1) + [Node.Node(c, None, None, None, b)] &&
                       Weight(input, i) == Weight(input, i - 1) + c &&
                       Present(input, i) == Present(input, i - 1) + multiset{b}) &&
            (c == 0 ==> Leaves(input, i) == Leaves(input, i - 1) && Weight(input, i) == Weight(input, i - 1) &&
                        Present(input, i) == Present(input, i - 1))
  {
  }

  /** One step of `get_stat`'s insert loop seen on the forest: a byte with
      a non-zero count `c` appends a parentless leaf, a byte with count 0
      changes nothing. */
  lemma {:induction false} ForestStep(prev: seq<Node>, mem: seq<Node>, w: nat, ps: multiset<byte>, c: nat, b: byte,
                   w': nat, ps': multiset<byte>)
    requires ForestOf(prev, |prev|) == Forest(Below(|prev|), w, ps)
    requires c > 0 ==> mem == prev + [Node.Node(c, None, None, None, b)] && w' == w + c && ps' == ps + multiset{b}
    requires c == 0 ==> mem == prev && w' == w && ps' == ps
    ensures ForestOf(mem, |mem|) == Forest(Below(|mem|), w', ps')
  {
    if c > 0 {
      LeafAdded(prev, Node.Node(c, None, None, None, b), w, ps);
    }
  }

  /** Appending a parentless leaf to an arena of roots `0..n - 1` adds it
      to the forest. */
  lemma {:induction false} LeafAdded(prev: seq<Node>, leaf: Node, w: nat, ps: multiset<byte>)
    requires ForestOf(prev, |prev|) == Forest(Below(|prev|), w, ps)
    requires leaf.parent.None? && IsLeaf(leaf)
    ensures ForestOf(prev + [leaf], |prev| + 1) ==
            Forest(Below(|prev| + 1), w + leaf.frequency, ps + multiset{leaf.byte})
  {
    var mem := prev + [leaf];
    ForestFrame(prev, mem, |prev|);
    assert TreeOf(mem, |prev|) == Leaf(leaf.byte);
  }

  /** The counting loop of `get_stat`: a zeroed 256-entry table in which
      each byte of `input` increments its own entry. */
  method CountBytes(input: seq<byte>) returns (freqs: array<nat>)
    ensures fresh(freqs) && freqs.Length == 256
    ensures forall b :: 0 <= b < 256 ==> freqs[b] == Count(input, b)
  {
    freqs := new nat[256](_ => 0);
    for i := 0 to |input|
      invariant forall b :: 0 <= b < 256 ==> freqs[b] == Count(input[..i], b)
    {
      assert input[..i + 1][..i] == input[..i];
      freqs[input[i]] := freqs[input[i]] + 1;
    }
    assert input[..|input|] == input;
  }

  /** The state of `get_stat`'s insert loop before byte `i`: the heap holds
      one leaf for each byte below `i` that occurs in `input`. */
  ghost predicate Loaded(heap: Heap, mem: seq<Node>, input: seq<byte>, i: nat)
    reads heap, heap.nodes
  {
    i <= 256 && mem == Leaves(input, i) &&
    heap.Ordered(mem) && heap.numNodes == |mem| && heap.Contents() == Below(|mem|) &&
    WholeForest(mem) == Forest(Below(|mem|), Weight(input, i), Present(input, i))
  }

  /** One round of `get_stat`'s insert loop: the byte `i`, counted `c`
      times, gets a parentless leaf in the heap when `c` is not 0. */
  method LoadLeaf(heap: Heap, mem: seq<Node>, input: seq<byte>, i: byte, c: nat) returns (mem': seq<Node>)
    requires c == Count(input, i) && Loaded(heap, mem, input, i)
    modifies heap, heap.nodes
    ensures heap.nodes == old(heap.nodes) || fresh(heap.nodes)
    ensures Loaded(heap, mem', input, i + 1)
  {
    if c == 0 {
      LoadedSkip(heap, mem, input, i);
      return mem;
    }
    mem' := InsertLeaf(heap, mem, input, i, c);
  }

  /** A byte that does not occur adds nothing. */
  lemma {:induction false} LoadedSkip(heap: Heap, mem: seq<Node>, input: seq<byte>, i: byte)
    requires Count(input, i) == 0 && Loaded(heap, mem, input, i)
    ensures Loaded(heap, mem, input, i + 1)
  {
    LeavesStep(input, i + 1);
    ForestStep(mem, mem, Weight(input, i), Present(input, i), 0, i, Weight(input, i + 1), Present(input, i + 1));
  }

  /** `bheap_insert` of a new leaf for a byte that occurs. */
  method InsertLeaf(heap: Heap, mem: seq<Node>, input: seq<byte>, i: byte, c: nat) returns (mem': seq<Node>)
    requires c == Count(input, i) > 0 && Loaded(heap, mem, input, i)
    modifies heap, heap.nodes
    ensures heap.nodes == old(heap.nodes) || fresh(heap.nodes)
    ensures Loaded(heap, mem', input, i + 1)
  {
    var node := Node.Node(c, None, None, None, i);
    LeavesStep(input, i + 1);
    ForestStep(mem, mem + [node], Weight(input, i), Present(input, i), c, i, Weight(input, i + 1), Present(input, i + 1));
    var inserted;
    mem', inserted := heap.Insert(mem, node);
  }

  /** `get_stat`: counts the bytes of `input`, then creates a heap of 512
      slots and inserts a leaf for every byte with a non-zero count, in
      byte order. */
  method GetStat(input: seq<byte>) returns (heap: Heap, mem: seq<Node>)
    ensures fresh(heap) && fresh(heap.nodes)
    ensures mem == Leaves(input, 256) && GoodArena(mem)
    ensures heap.Ordered(mem) && heap.numNodes == |mem|
    ensures heap.Contents() == Below(|mem|)
    ensures WholeForest(mem) == Forest(Below(|mem|), |input|, Present(input, 256))
  {
    var freqs := CountBytes(input);
    heap := new Heap(512);
    mem := [];
    for i := 0 to 256
      invariant fresh(heap) && fresh(heap.nodes) && heap.nodes != freqs
      invariant forall b :: 0 <= b < 256 ==> freqs[b] == Count(input, b)
      invariant Loaded(heap, mem, input, i)
    {
      mem := LoadLeaf(heap, mem, input, i, freqs[i]);
    }
    LeavesLinked(input, 256);
    WeightAll(input);
  }

  // ---------------------------------------------------------------------
  // build_tree

  /** The node `build_tree` creates for the roots `f` (first popped, the
      left child) and `s` (the right child): the sum of their frequencies,
      no parent, byte 0. */
  function Joined(mem: seq<Node>, f: nat, s: nat): Node
    requires f < |mem| && s < |mem|
  {
    Node.Node(mem[f].frequency + mem[s].frequency, Some(f), Some(s), None, 0)
  }

  /** `f->parent = s->parent = p`. */
  function SetParents(mem: seq<Node>, f: nat, s: nat, p: nat): (mem': seq<Node>)
    requires f < |mem| && s < |mem|
    ensures |mem'| == |mem|
  {
    var mem2 := mem[f := mem[f].(parent := Some(p))];
    mem2[s := mem2[s].(parent := Some(p))]
  }

  /** Setting the parents changes nothing but the parents of `f` and `s`. */
  lemma {:induction false} SetParentsFrame(mem: seq<Node>, f: nat, s: nat, p: nat)
    requires f < |mem| && s < |mem|
    ensures forall q :: 0 <= q < |mem| ==>
              Links(SetParents(mem, f, s, p)[q]) == Links(mem[q]) &&
              SetParents(mem, f, s, p)[q].frequency == mem[q].frequency &&
              SetParents(mem, f, s, p)[q].parent == if q == f || q == s then Some(p) else mem[q].parent
  {
  }

  /** A merge keeps the arena linked and the older nodes' links and
      frequencies, and it replaces the roots `f` and `s` of the forest by
      the new node, keeping the forest's total frequency and bytes. */
  lemma {:induction false} Merge(mem: seq<Node>, f: nat, s: nat)
    requires GoodArena(mem) && f < |mem| && s < |mem| && f != s
    requires mem[f].parent.None? && mem[s].parent.None?
    ensures var mem' := SetParents(mem + [Joined(mem, f, s)], f, s, |mem|);
            GoodArena(mem') &&
            (forall q :: 0 <= q < |mem| ==> Links(mem'[q]) == Links(mem[q]) && mem'[q].frequency == mem[q].frequency)
    ensures var a, b := WholeForest(mem), WholeForest(SetParents(mem + [Joined(mem, f, s)], f, s, |mem|));
            b.roots == a.roots - multiset{f} - multiset{s} + multiset{|mem|} &&
            b.weight == a.weight && b.syms == a.syms
  {
    MergeLinked(mem, f, s);
    MergeForest(mem, f, s);
  }

  lemma {:induction false} MergeForest(mem: seq<Node>, f: nat, s: nat)
    requires f < |mem| && s < |mem| && f != s
    requires mem[f].parent.None? && mem[s].parent.None?
    ensures var a, b := WholeForest(mem), WholeForest(SetParents(mem + [Joined(mem, f, s)], f, s, |mem|));
            b.roots == a.roots - multiset{f} - multiset{s} + multiset{|mem|} &&
            b.weight == a.weight && b.syms == a.syms
  {
    var p := |mem|;
    var mem1 := mem + [Joined(mem, f, s)];
    var mem2 := mem1[f := mem1[f].(parent := Some(p))];
    var mem3 := mem2[s := mem2[s].(parent := Some(p))];
    assert mem3 == SetParents(mem1, f, s, p);
    MergedTrees(mem, f, s);
    ForestFrame(mem, mem1, p);
    RootsOnce(mem, p, f);
    RootsOnce(mem, p, s);
    Rerooted(ForestOf(mem, p), mem1, mem2, mem3, f, s, p, mem[f].frequency, mem[s].frequency,
             TreeOf(mem, f), TreeOf(mem, s));
  }

  /** The forest bookkeeping of a merge, over any arena `mem1` whose last
      node `p` is a fresh parentless join of the roots `f` and `s`, and
      whose parents of `f` and then `s` are set to `p` in `mem2` and
      `mem3`. */
  lemma {:induction false} Rerooted(a: Forest, mem1: seq<Node>, mem2: seq<Node>, mem3: seq<Node>, f: nat, s: nat, p: nat,
                 wf: nat, ws: nat, tf: Tree, ts: Tree)
    requires f < p && s < p && f != s && |mem1| == p + 1
    requires ForestOf(mem1, p) == a && a.roots[f] == 1 && a.roots[s] == 1
    requires mem1[p].parent.None? && mem1[p].frequency == wf + ws && TreeOf(mem1, p) == Tree.Node(tf, ts)
    requires mem1[f].parent.None? && mem1[f].frequency == wf && TreeOf(mem1, f) == tf
    requires mem2 == mem1[f := mem1[f].(parent := Some(p))]
    requires mem2[s].parent.None? && mem2[s].frequency == ws && TreeOf(mem2, s) == ts
    requires mem3 == mem2[s := mem2[s].(parent := Some(p))]
    ensures var b := ForestOf(mem3, p + 1);
            b.roots == a.roots - multiset{f} - multiset{s} + multiset{p} &&
            b.weight == a.weight && b.syms == a.syms
  {
    Unroot(mem1, mem2, p + 1, f, p);
    Unroot(mem2, mem3, p + 1, s, p);
    Combine(a, ForestOf(mem1, p + 1), ForestOf(mem2, p + 1), ForestOf(mem3, p + 1),
            f, s, p, wf, ws, Syms(tf), Syms(ts));
  }

  /** The bookkeeping of a merge: adding the new root `p` and then taking
      out `f` and `s` leaves the heap's view of the roots and keeps the
      total weight and bytes. */
  lemma {:induction false} Combine(f0: Forest, f1: Forest, f2: Forest, f3: Forest, f: nat, s: nat, p: nat,
                wf: nat, ws: nat, bf: multiset<byte>, bs: multiset<byte>)
    requires f1.roots == f0.roots + multiset{p} && f1.weight == f0.weight + (wf + ws) && f1.syms == f0.syms + (bf + bs)
    requires f1.roots == f2.roots + multiset{f} && f1.weight == f2.weight + wf && f1.syms == f2.syms + bf
    requires f2.roots == f3.roots + multiset{s} && f2.weight == f3.weight + ws && f2.syms == f3.syms + bs
    requires f0.roots[f] == 1 && f0.roots[s] == 1 && f != s
    ensures f3.roots == f0.roots - multiset{f} - multiset{s} + multiset{p}
    ensures f3.weight == f0.weight && f3.syms == f0.syms
  {
    forall x ensures f3.syms[x] == f0.syms[x] {
      assert f1.syms[x] == f0.syms[x] + bf[x] + bs[x] == f3.syms[x] + bs[x] + bf[x];
    }
    forall x ensures f3.roots[x] == (f0.roots - multiset{f} - multiset{s} + multiset{p})[x] {
      assert f1.roots[x] == f0.roots[x] + multiset{p}[x] == f3.roots[x] + multiset{s}[x] + multiset{f}[x];
    }
  }

  /** The trees at the merged addresses: the old roots keep their trees and
      the new node joins them. */
  lemma {:induction false} MergedTrees(mem: seq<Node>, f: nat, s: nat)
    requires f < |mem| && s < |mem| && f != s
    ensures var p := |mem|;
            var mem1 := mem + [Joined(mem, f, s)];
            var mem2 := mem1[f := mem1[f].(parent := Some(p))];
            TreeOf(mem1, f) == TreeOf(mem, f) && TreeOf(mem1, s) == TreeOf(mem, s) &&
            TreeOf(mem2, s) == TreeOf(mem, s) &&
            TreeOf(mem1, p) == Tree.Node(TreeOf(mem, f), TreeOf(mem, s))
  {
    var p := |mem|;
    var mem1 := mem + [Joined(mem, f, s)];
    var mem2 := mem1[f := mem1[f].(parent := Some(p))];
    forall q | 0 <= q < |mem| ensures Links(mem1[q]) == Links(mem[q]) && Links(mem2[q]) == Links(mem[q]) {
    }
    SameLinks(mem, mem1, f);
    SameLinks(mem, mem1, s);
    SameLinks(mem, mem2, s);
  }

  lemma {:induction false} MergeLinked(mem: seq<Node>, f: nat, s: nat)
    requires GoodArena(mem) && f < |mem| && s < |mem| && f != s
    requires mem[f].parent.None? && mem[s].parent.None?
    ensures var mem' := SetParents(mem + [Joined(mem, f, s)], f, s, |mem|);
            GoodArena(mem') &&
            (forall q :: 0 <= q < |mem| ==> Links(mem'[q]) == Links(mem[q]) && mem'[q].frequency == mem[q].frequency)
  {
    var mem' := SetParents(mem + [Joined(mem, f, s)], f, s, |mem|);
    forall q | 0 <= q < |mem'| ensures Linked(mem', q) {
      if q < |mem| {
        assert Linked(mem, q);
        var n := mem[q];
        if n.left.Some? {
          assert mem'[n.left.value] == mem[n.left.value];
          assert mem'[n.right.value] == mem[n.right.value];
        }
      }
    }
  }

  /** The two pops at the top of `build_tree`'s loop: the first popped
      address has the least frequency in the heap, the second the least of
      what remains. */
  method PopPair(heap: Heap, mem: seq<Node>) returns (f: nat, s: nat)
    requires heap.Ordered(mem) && heap.numNodes >= 2
    modifies heap, heap.nodes
    ensures heap.Ordered(mem) && heap.numNodes == old(heap.numNodes) - 2
    ensures heap.nodes == old(heap.nodes) || fresh(heap.nodes)
    ensures LeastIn(mem, f, old(heap.Contents()))
    ensures LeastIn(mem, s, old(heap.Contents()) - multiset{f})
    ensures heap.Contents() == old(heap.Contents()) - multiset{f} - multiset{s}
  {
    var first := heap.Pop(mem);
    if first.None? {
      assert false;
    }
    var second := heap.Pop(mem);
    if second.None? {
      assert false;
    }
    f, s := first.value, second.value;
  }

  /** One round of `build_tree`'s loop: pops the two least frequent
      roots `f` and `s`, inserts a copy of a new node with them as left and
      right child and the sum of their frequencies, and makes them point to
      the inserted copy. The forest loses `f` and `s` and gains the new
      node, keeping its total frequency and bytes. */
  method MergeLeast(heap: Heap, mem: seq<Node>) returns (mem': seq<Node>, f: nat, s: nat)
    requires heap.Ordered(mem) && GoodArena(mem) && heap.numNodes >= 2
    requires heap.Contents() == WholeForest(mem).roots
    modifies heap, heap.nodes
    ensures |mem'| == |mem| + 1
    ensures LeastIn(mem, f, old(heap.Contents())) && LeastIn(mem, s, old(heap.Contents()) - multiset{f})
    ensures mem' == SetParents(mem + [Joined(mem, f, s)], f, s, |mem|)
    ensures heap.Ordered(mem') && GoodArena(mem') && heap.numNodes == old(heap.numNodes) - 1
    ensures heap.nodes == old(heap.nodes) || fresh(heap.nodes)
    ensures heap.Contents() == WholeForest(mem').roots
    ensures WholeForest(mem').weight == WholeForest(mem).weight
    ensures WholeForest(mem').syms == WholeForest(mem).syms
    ensures forall q :: 0 <= q < |mem| ==> Links(mem'[q]) == Links(mem[q]) && mem'[q].frequency == mem[q].frequency
  {
    ghost var a := WholeForest(mem);
    f, s := PopPair(heap, mem);
    RootsOnce(mem, |mem|, f);
    RootsOnce(mem, |mem|, s);
    var node := Node.Node(mem[f].frequency + mem[s].frequency, Some(f), Some(s), None, 0);
    var mem1, inserted := heap.Insert(mem, node);
    assert node == Joined(mem, f, s);
    mem' := SetParents(mem1, f, s, inserted);
    SetParentsFrame(mem1, f, s, inserted);
    Merge(mem, f, s);
    SameKeysOrdered(mem1, mem', heap.nodes[..], heap.nodes[..], heap.numNodes);
  }

  /** Every parent pointer of the arena names an address inside it. */
  ghost predicate ParentsInside(mem: seq<Node>)
  {
    forall q :: 0 <= q < |mem| && mem[q].parent.Some? ==> mem[q].parent.value < |mem|
  }

  /** Node `q` was a root of the forest just before node `k` was created:
      it had no parent yet, or was given one by node `k` or a later one. */
  ghost predicate RootBefore(mem: seq<Node>, q: nat, k: nat)
    requires q < |mem|
  {
    mem[q].parent.None? || mem[q].parent.value >= k
  }

  /** Node `k` was made by one round of `build_tree`: its left child is a
      root of least frequency among the roots before it, and its right
      child one of least frequency among the others. */
  ghost predicate JoinsLeast(mem: seq<Node>, k: nat)
    requires k < |mem|
  {
    mem[k].left.Some? && mem[k].right.Some? &&
    var f, s := mem[k].left.value, mem[k].right.value;
    f < k && s < k && f != s && RootBefore(mem, f, k) && RootBefore(mem, s, k) &&
    (forall q :: 0 <= q < k && RootBefore(mem, q, k) ==> mem[f].frequency <= mem[q].frequency) &&
    (forall q :: 0 <= q < k && q != f && RootBefore(mem, q, k) ==> mem[s].frequency <= mem[q].frequency)
  }

  /** Every node from address `n` on was made by merging two least roots. */
  ghost predicate Greedy(mem: seq<Node>, n: nat)
  {
    forall k :: n <= k < |mem| ==> JoinsLeast(mem, k)
  }

  /** A merge of the least root `f` and the least other root `s` keeps
      the earlier merges greedy and is greedy itself. */
  lemma {:induction false} GreedyStep(mem: seq<Node>, n: nat, f: nat, s: nat)
    requires Greedy(mem, n) && ParentsInside(mem) && f < |mem| && s < |mem|
    requires LeastIn(mem, f, WholeForest(mem).roots)
    requires LeastIn(mem, s, WholeForest(mem).roots - multiset{f})
    ensures f != s
    ensures var mem' := SetParents(mem + [Joined(mem, f, s)], f, s, |mem|);
            Greedy(mem', n) && ParentsInside(mem')
  {
    var p := |mem|;
    var mem1 := mem + [Joined(mem, f, s)];
    var mem' := SetParents(mem1, f, s, p);
    RootsOnce(mem, p, f);
    RootsOnce(mem, p, s);
    SetParentsFrame(mem1, f, s, p);
    forall k | n <= k < |mem'| ensures JoinsLeast(mem', k) {
      if k < p {
        forall q | 0 <= q < k ensures RootBefore(mem', q, k) == RootBefore(mem, q, k) {
          assert mem1[q] == mem[q];
        }
        assert JoinsLeast(mem, k);
        assert mem'[k].left == mem[k].left && mem'[k].right == mem[k].right;
      } else {
        JoinsLast(mem, mem', f, s);
      }
    }
  }

  /** The node a merge appends joins two least roots. */
  lemma {:induction false} JoinsLast(mem: seq<Node>, mem': seq<Node>, f: nat, s: nat)
    requires ParentsInside(mem) && f < |mem| && s < |mem|
    requires LeastIn(mem, f, WholeForest(mem).roots)
    requires LeastIn(mem, s, WholeForest(mem).roots - multiset{f})
    requires mem' == SetParents(mem + [Joined(mem, f, s)], f, s, |mem|)
    ensures JoinsLeast(mem', |mem|)
  {
    var p := |mem|;
    var mem1 := mem + [Joined(mem, f, s)];
    RootsOnce(mem, p, f);
    RootsOnce(mem, p, s);
    SetParentsFrame(mem1, f, s, p);
    assert mem'[p] == Joined(mem, f, s);
    forall q | 0 <= q < p && RootBefore(mem', q, p)
      ensures mem'[f].frequency <= mem'[q].frequency
      ensures q != f ==> mem'[s].frequency <= mem'[q].frequency
    {
      assert mem1[q] == mem[q];
      RootsOnce(mem, p, q);
    }
  }

  /** `build_tree`: merges the two least frequent nodes while more than
      one is in the heap; the last node is the root. */
  method BuildTree(heap: Heap, mem: seq<Node>) returns (mem': seq<Node>, root: nat)
    requires heap.Ordered(mem) && GoodArena(mem) && ParentsInside(mem) && heap.numNodes >= 1
    requires heap.Contents() == WholeForest(mem).roots
    modifies heap, heap.nodes
    ensures GoodArena(mem') && root < |mem'| && mem'[root].parent.None?
    ensures forall q :: 0 <= q < |mem'| && q != root ==> mem'[q].parent.Some?
    ensures Greedy(mem', |mem|)
    ensures |mem'| == |mem| + old(heap.numNodes) - 1
    ensures forall q :: 0 <= q < |mem| ==> Links(mem'[q]) == Links(mem[q]) && mem'[q].frequency == mem[q].frequency
    ensures mem'[root].frequency == WholeForest(mem).weight
    ensures Syms(TreeOf(mem', root)) == WholeForest(mem).syms
    ensures heap.Ordered(mem') && heap.numNodes == 1 && heap.nodes[1] == root
  {
    ghost var start := WholeForest(mem);
    mem' := mem;
    while heap.numNodes > 1
      invariant heap.Ordered(mem') && GoodArena(mem') && heap.numNodes >= 1
      invariant heap.nodes == old(heap.nodes) || fresh(heap.nodes)
      invariant heap.Contents() == WholeForest(mem').roots
      invariant WholeForest(mem').weight == start.weight && WholeForest(mem').syms == start.syms
      invariant |mem'| + heap.numNodes == |mem| + old(heap.numNodes)
      invariant |mem| <= |mem'|
      invariant forall q :: 0 <= q < |mem| ==> Links(mem'[q]) == Links(mem[q]) && mem'[q].frequency == mem[q].frequency
      invariant Greedy(mem', |mem|) && ParentsInside(mem')
      decreases heap.numNodes
    {
      ghost var before := mem';
      var f, s;
      mem', f, s := MergeLeast(heap, mem');
      GreedyStep(before, |mem|, f, s);
    }
    root := heap.nodes[1];
    assert heap.Contents() == multiset{root} by {
      assert heap.nodes[1..2] == [root];
    }
    SoleRoot(mem', |mem'|, root);
    forall q | 0 <= q < |mem'| && q != root ensures mem'[q].parent.Some? {
      RootsOnce(mem', |mem'|, q);
    }
  }

  /** The arena `build_tree` leaves for `input`: the leaves of `get_stat`
      first (their links, bytes and counts unchanged), then one node per
      round, each joining two least roots of the forest before it, and a
      single root `root` left over. */
  ghost predicate BuiltFrom(input: seq<byte>, mem: seq<Node>, root: nat)
  {
    var leaves := Leaves(input, 256);
    GoodArena(mem) && 1 <= |leaves| && |mem| == 2 * |leaves| - 1 && root < |mem| &&
    (forall q :: 0 <= q < |mem| ==> (mem[q].parent.None? <==> q == root)) &&
    (forall q :: 0 <= q < |leaves| ==> Links(mem[q]) == Links(leaves[q]) && mem[q].frequency == leaves[q].frequency) &&
    Greedy(mem, |leaves|)
  }
}
