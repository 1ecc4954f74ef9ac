/** `huffman_encode` of huff.c: the input's length, the code tree and the
    encoded input, one after the other in the caller's buffer. */
module Huffman {
  import opened Bits
  import opened HeapNodes
  import opened HuffTree
  import opened Arena
  import opened BHeap
  import opened HuffBuild
  import opened HuffWalk
  import opened HuffWrite
  import opened HuffEncode
  import opened Sink
  import opened HuffDecode

  /** `in_len` is a `uint32_t`. */
  const LengthLimit: nat := 0x1_0000_0000

  /** The four bytes of a `uint32_t` in memory, least significant first
      (the byte order of the machines the packer targets). */
  function LE32(n: nat): (r: seq<byte>)
    requires n < LengthLimit
    ensures |r| == 4
  {
    [n % 256, n / 0x100 % 256, n / 0x1_0000 % 256, n / 0x100_0000 % 256]
  }

  /** The length field reads back as the length written. */
  lemma {:induction false} LE32RoundTrip(n: nat)
    requires n < LengthLimit
    ensures FromLE32(LE32(n)) == n
  {
    var r := LE32(n);
    assert n / 0x100 == n / 0x100 % 256 * 1 + n / 0x1_0000 * 256;
    assert n / 0x1_0000 == n / 0x1_0000 % 256 + n / 0x100_0000 * 256;
    assert n / 0x100_0000 % 256 == n / 0x100_0000;
  }

  /** The code table `get_alphabet` fills in for `t`, starting from a table
      of empty codes (the entries of bytes absent from `t` are never
      read). */
  function Codes(t: Tree): (r: seq<Symbol>)
    ensures |r| == 256
  {
    Assign(seq(256, _ => Symbol(0, 0)), Preorder(t, []))
  }

  /** The bytes `huffman_encode` writes for `input` with the tree `t`. */
  function Output(input: seq<byte>, t: Tree): seq<byte>
    requires |input| < LengthLimit
  {
    LE32(|input|) + Pack(Serialize(t)) + Pack(Encoded(Codes(t), input))
  }

  /** `memcpy(out_buf, &in_len, sizeof(in_len))`. */
  method PutLength(buf: array<byte>, n: nat)
    requires n < LengthLimit && 4 <= buf.Length
    modifies buf
    ensures buf[..4] == LE32(n) && buf[4..] == old(buf[4..])
  {
    buf[0] := n % 256;
    buf[1] := n / 0x100 % 256;
    buf[2] := n / 0x1_0000 % 256;
    buf[3] := n / 0x100_0000 % 256;
  }

  /** When every byte of the input labels a leaf of a tree no higher than
      `BIT_LIMIT`, the table holds a code of at most `BIT_LIMIT` bits for
      each input byte. */
  lemma {:induction false} TableFits(t: Tree, input: seq<byte>)
    requires DistinctSyms(t) && Height(t) <= BitLimit
    requires forall b: byte :: b in input ==> b in Syms(t)
    ensures forall i :: 0 <= i < |input| ==> Fits(Codes(t)[input[i]])
  {
    forall i | 0 <= i < |input|
      ensures Fits(Codes(t)[input[i]])
    {
      var path := PathTo(t, input[i]);
      AssignCodes(seq(256, _ => Symbol(0, 0)), t, [], path);
      assert [] + path == path;
      PathWithinHeight(t, path);
      ValueBound(path);
    }
  }

  /** Codes of at most `BIT_LIMIT` bits take at most four bytes per input
      byte. */
  lemma {:induction false} EncodedBound(alphabet: seq<Symbol>, input: seq<byte>)
    requires |alphabet| == 256
    requires forall i :: 0 <= i < |input| ==> Fits(alphabet[input[i]])
    ensures |Encoded(alphabet, input)| <= BitLimit * |input|
  {
    if input != [] {
      EncodedBound(alphabet, input[..|input| - 1]);
    }
  }

  /** The whole output fits in `4 + 320 + 4 * |input|` bytes: the tree of
      at most 256 leaves takes at most 320 bytes. */
  lemma {:induction false} OutputBound(t: Tree, input: seq<byte>)
    requires |input| < LengthLimit && DistinctSyms(t) && Height(t) <= BitLimit
    requires forall b: byte :: b in input ==> b in Syms(t)
    ensures |Output(input, t)| <= 4 + 320 + 4 * |input|
  {
    SerializeLength(t);
    SymsCount(t);
    DistinctAtMost256(t);
    TableFits(t, input);
    EncodedBound(Codes(t), input);
  }

  /** A tree with distinct leaf bytes has at most 256 leaves. */
  lemma {:induction false} DistinctAtMost256(t: Tree)
    requires DistinctSyms(t)
    ensures |Syms(t)| <= 256
  {
    var all := multiset(seq(256, i requires 0 <= i < 256 => i as byte));
    assert Syms(t) <= all by {
      forall b: byte ensures Syms(t)[b] <= all[b] {
        var s := seq(256, i requires 0 <= i < 256 => i as byte);
        assert s[b] == b;
        assert b in s;
      }
    }
    assert |all| == 256;
    MultisetSubsetSize(Syms(t), all);
  }

  lemma {:induction false} MultisetSubsetSize(a: multiset<byte>, b: multiset<byte>)
    requires a <= b
    ensures |a| <= |b|
    decreases |a|
  {
    if a != multiset{} {
      var x :| x in a;
      MultisetSubsetSize(a - multiset{x}, b - multiset{x});
    }
  }

  /** The tree built from a non-empty input labels its leaves with the
      input's bytes, each once. */
  lemma {:induction false} BuiltTree(input: seq<byte>, t: Tree)
    requires Syms(t) == Present(input, 256)
    ensures DistinctSyms(t)
    ensures forall b: byte :: b in Syms(t) <==> b in input
  {
    forall b: byte ensures Syms(t)[b] == if b in input then 1 else 0 {
      PresentOnce(input, 256, b);
    }
  }

  /** An input of one distinct byte builds a tree that is a single leaf:
      `get_alphabet` gives the byte the empty code and `encode` writes no
      bits for the input. */
  lemma {:induction false} SingleLeafCode(b: byte, input: seq<byte>)
    requires forall i :: 0 <= i < |input| ==> input[i] == b
    ensures Codes(Leaf(b))[b] == Symbol(0, 0)
    ensures Encoded(Codes(Leaf(b)), input) == []
    decreases |input|
  {
    var empty := seq(256, _ => Symbol(0, 0));
    AssignOne(empty, LeafVisit([], b));
    if input != [] {
      SingleLeafCode(b, input[..|input| - 1]);
    }
  }

  /** The three parts written one after the other. */
  lemma {:induction false} Layout(b0: seq<byte>, b1: seq<byte>, b2: seq<byte>, b3: seq<byte>,
               head: seq<byte>, tree: seq<byte>, codes: seq<byte>)
    requires |head| == 4 && 4 <= |b0| && |b1| == |b0|
    requires b1[..4] == head && b1[4..] == b0[4..]
    requires Holds(b2, b1, 4, tree) && Holds(b3, b2, 4 + |tree|, codes)
    ensures b3[..4 + |tree| + |codes|] == head + tree + codes
    ensures b3[4 + |tree| + |codes|..] == b0[4 + |tree| + |codes|..]
  {
    var n := 4 + |tree| + |codes|;
    assert b3[..n] == b3[..4] + b3[4..4 + |tree|] + b3[4 + |tree|..n];
    assert b3[..4] == b2[..4] == b1[..4];
    assert b3[4..4 + |tree|] == b2[4..4 + |tree|];
    assert b3[n..] == b2[n..] == b1[n..];
    assert b1[n..] == b0[n..];
  }

  /** What `huffman_encode` writes reads back as its input: the length
      field, then the tree, then one code per input byte. */
  lemma {:induction false} RoundTrip(input: seq<byte>, t: Tree)
    requires |input| < LengthLimit && DistinctSyms(t)
    requires forall b: byte :: b in input ==> b in Syms(t)
    ensures Decompress(Output(input, t)) == Some(input)
  {
    var e := Encoded(Codes(t), input);
    LE32RoundTrip(|input|);
    DecodeEncoded(seq(256, _ => Symbol(0, 0)), t, input, Zeros(PadBits(|e|)));
    DecompressLayout(LE32(|input|), t, e, |input|, input);
  }

  /** The first half of `huffman_encode`: count the bytes and build the
      tree from them. */
  method Build(input: seq<byte>) returns (mem: seq<Node>, root: nat)
    requires input != []
    ensures Finished(mem, root) && BuiltFrom(input, mem, root)
    ensures Syms(TreeOf(mem, root)) == Present(input, 256)
    ensures mem[root].frequency == |input|
  {
    var heap, leaves := GetStat(input);
    LeavesCount(input, 256);
    PresentSize(input, 256);
    LeavesAreLeaves(input, 256);
    mem, root := BuildTree(heap, leaves);
  }

  /** The second half of `huffman_encode`, once the table is filled: the
      length, the tree and the encoded input. */
  method WriteOutput(input: seq<byte>, mem: seq<Node>, root: nat, alphabet: array<Symbol>, buf: array<byte>) returns (len: nat)
    requires |input| < LengthLimit && Finished(mem, root)
    requires DistinctSyms(TreeOf(mem, root)) && Height(TreeOf(mem, root)) <= BitLimit
    requires forall b: byte :: b in input ==> b in Syms(TreeOf(mem, root))
    requires alphabet.Length == 256 && alphabet[..] == Codes(TreeOf(mem, root))
    requires |Output(input, TreeOf(mem, root))| <= buf.Length
    modifies buf
    ensures len == |Output(input, TreeOf(mem, root))| <= buf.Length
    ensures buf[..len] == Output(input, TreeOf(mem, root))
    ensures buf[len..] == old(buf[len..])
  {
    ghost var t := TreeOf(mem, root);
    TableFits(t, input);
    ghost var b0 := buf[..];
    PutLength(buf, |input|);
    ghost var b1 := buf[..];
    len := 4;
    var treeLen := WriteTree(mem, root, buf, len);
    len := len + treeLen;
    ghost var b2 := buf[..];
    var codeLen := Encode(input, buf, len, alphabet);
    len := len + codeLen;
    Layout(b0, b1, b2, buf[..], LE32(|input|), Pack(Serialize(t)), Pack(Encoded(Codes(t), input)));
  }

  /** `huffman_encode`: builds the code tree of the input and writes its
      length, the tree and the encoded input into `buf`, reporting the
      number of bytes in `outLen`. It fails, writing nothing, when the tree
      is higher than `BIT_LIMIT`. The empty input is excluded: `build_tree`
      would return an uninitialised heap slot as the root. */
  method HuffmanEncode(input: seq<byte>, buf: array<byte>, outLen: nat)
    returns (ret: int, outLen': nat, ghost mem: seq<Node>, ghost root: nat, ghost t: Tree)
    requires 0 < |input| < LengthLimit
    requires 4 + 320 + 4 * |input| <= buf.Length
    modifies buf
    ensures BuiltFrom(input, mem, root) && root < |mem| && t == TreeOf(mem, root)
    ensures DistinctSyms(t) && forall b: byte :: b in Syms(t) <==> b in input
    ensures ret == 0 || ret == -1
    ensures ret == -1 <==> Height(t) > BitLimit
    ensures ret == -1 ==> outLen' == outLen && buf[..] == old(buf[..])
    ensures ret == 0 ==> outLen' == |Output(input, t)| <= buf.Length
    ensures ret == 0 ==> buf[..outLen'] == Output(input, t) && buf[outLen'..] == old(buf[outLen'..])
    ensures ret == 0 ==> Decompress(buf[..outLen']) == Some(input)
  {
    ret := -1;
    outLen' := outLen;
    var nodes, tree := Build(input);
    mem, root := nodes, tree;
    t := TreeOf(nodes, tree);
    BuiltTree(input, t);
    var alphabet := new Symbol[256](_ => Symbol(0, 0));
    assert alphabet[..] == seq(256, _ => Symbol(0, 0));
    var r := GetAlphabet(nodes, tree, alphabet);
    if r < 0 {
      return;
    }
    OutputBound(t, input);
    outLen' := WriteOutput(input, nodes, tree, alphabet, buf);
    RoundTrip(input, t);
    ret := 0;
  }
}
