/** The reading side of the compressed format. huff.c has no decoder (the
    loader stub that unpacks at run time is not part of this model); these
    definitions follow the format `huffman_encode` writes and serve to state
    that the output can be read back. */
module HuffDecode {
  import opened Bits
  import opened HeapNodes
  import opened HuffTree
  import opened HuffEncode

  /** Reads one serialised tree off the front of `bits`: a `1` and eight
      bits make a leaf, a `0` an internal node followed by its left and then
      its right subtree. Gives the tree and the bits after it. */
  function ReadTree(bits: seq<bool>): (r: Option<(Tree, seq<bool>)>)
    ensures r.Some? ==> |r.value.1| < |bits|
    decreases |bits|
  {
    if bits == [] then None
    else if bits[0] then
      if |bits| < 9 then None
      else
        ValueBound(bits[1..9]);
        Pow2Of8();
        Some((Leaf(Value(bits[1..9])), bits[9..]))
    else
      match ReadTree(bits[1..])
      case None => None
      case Some((l, rest)) =>
        match ReadTree(rest)
        case None => None
        case Some((r, rest')) => Some((Tree.Node(l, r), rest'))
  }

  /** Reading a serialised tree gives the tree back, whatever follows. */
  lemma {:induction false} ReadSerialize(t: Tree, rest: seq<bool>)
    ensures ReadTree(Serialize(t) + rest) == Some((t, rest))
    decreases t
  {
    var bits := Serialize(t) + rest;
    match t
    case Leaf(b) =>
      assert bits[1..9] == ToBits(b, 8);
      assert bits[9..] == rest;
      ValueOfToBits(b, 8);
      Pow2Of8();
      LowOfSmall(b, 8);
    case Node(l, r) =>
      assert bits[1..] == Serialize(l) + (Serialize(r) + rest);
      ReadSerialize(l, Serialize(r) + rest);
      ReadSerialize(r, rest);
  }

  /** Reads one code: from the root, `0` goes left and `1` right, until a
      leaf. A tree that is a single leaf reads no bits. */
  function DecodeOne(t: Tree, bits: seq<bool>): (r: Option<(byte, seq<bool>)>)
    ensures r.Some? ==> |r.value.1| <= |bits|
  {
    match t
    case Leaf(b) => Some((b, bits))
    case Node(l, r) =>
      if bits == [] then None else DecodeOne(if bits[0] then r else l, bits[1..])
  }

  /** Following the path to a leaf reads that leaf's byte. */
  lemma {:induction false} DecodePath(t: Tree, path: seq<bool>, rest: seq<bool>)
    requires LeafPath(t, path)
    ensures DecodeOne(t, path + rest) == Some((At(t, path).sym, rest))
    decreases |path|
  {
    if path != [] {
      assert t.Node? && (path + rest)[0] == path[0];
      assert (path + rest)[1..] == path[1..] + rest;
      assert LeafPath(Child(t, path[0]), path[1..]);
      DecodePath(Child(t, path[0]), path[1..], rest);
    } else {
      assert path + rest == rest;
    }
  }

  /** Reads `n` codes one after the other. */
  function DecodeN(t: Tree, bits: seq<bool>, n: nat): (r: Option<seq<byte>>)
    ensures r.Some? ==> |r.value| == n
    decreases n
  {
    if n == 0 then Some([])
    else
      match DecodeOne(t, bits)
      case None => None
      case Some((b, rest)) =>
        match DecodeN(t, rest, n - 1)
        case None => None
        case Some(s) => Some([b] + s)
  }

  /** Reading a byte's code gives the byte: the code is its leaf's path. */
  lemma {:induction false} DecodeCode(a: seq<Symbol>, t: Tree, b: byte, rest: seq<bool>)
    requires |a| == 256 && DistinctSyms(t) && b in Syms(t)
    ensures DecodeOne(t, CodeBits(Assign(a, Preorder(t, []))[b]) + rest) == Some((b, rest))
  {
    var path := PathTo(t, b);
    CodeIsPath(a, t, path);
    DecodePath(t, path, rest);
  }

  /** Reading the encoded input gives the input back, whatever follows. */
  lemma {:induction false} DecodeEncoded(a: seq<Symbol>, t: Tree, input: seq<byte>, rest: seq<bool>)
    requires |a| == 256 && DistinctSyms(t)
    requires forall i :: 0 <= i < |input| ==> input[i] in Syms(t)
    ensures DecodeN(t, Encoded(Assign(a, Preorder(t, [])), input) + rest, |input|) == Some(input)
    decreases |input|
  {
    if input != [] {
      var codes := Assign(a, Preorder(t, []));
      var x, tail := input[0], input[1..];
      var code, more := CodeBits(codes[x]), Encoded(codes, tail) + rest;
      assert Encoded(codes, input) + rest == code + more by {
        EncodedCons(codes, input);
        Regroup(code, Encoded(codes, tail), rest);
      }
      DecodeCode(a, t, x, more);
      DecodeEncoded(a, t, tail, rest);
      DecodeCons(t, code, more, x, tail);
      assert [x] + tail == input;
    }
  }

  /** The first code of a non-empty input comes first. */
  lemma {:induction false} EncodedCons(codes: seq<Symbol>, input: seq<byte>)
    requires |codes| == 256 && input != []
    ensures Encoded(codes, input) == CodeBits(codes[input[0]]) + Encoded(codes, input[1..])
  {
    var x := input[0];
    EncodedAppend(codes, [x], input[1..]);
    assert [x] + input[1..] == input;
    assert [x][..0] == [];
  }

  /** One code read, then the others. */
  lemma {:induction false} DecodeCons(t: Tree, code: seq<bool>, bits: seq<bool>, x: byte, s: seq<byte>)
    requires DecodeOne(t, code + bits) == Some((x, bits))
    requires DecodeN(t, bits, |s|) == Some(s)
    ensures DecodeN(t, code + bits, |s| + 1) == Some([x] + s)
  {
  }

  /** A `uint32_t` read from four bytes, least significant first. */
  function FromLE32(r: seq<byte>): nat
    requires |r| == 4
  {
    r[0] as nat + 0x100 * r[1] as nat + 0x1_0000 * r[2] as nat + 0x100_0000 * r[3] as nat
  }

  /** Reads a compressed buffer: the input's length, then the tree and
      the codes. */
  function Decompress(bytes: seq<byte>): Option<seq<byte>>
  {
    if |bytes| < 4 then None else ReadBody(Unpack(bytes[4..]), FromLE32(bytes[..4]))
  }

  /** Reads the tree, skips the padding that ends its last byte, then reads
      `n` codes. */
  function ReadBody(bits: seq<bool>, n: nat): Option<seq<byte>>
  {
    match ReadTree(bits)
    case None => None
    case Some((t, rest)) =>
      var pad := PadBits(|bits| - |rest|);
      if |rest| < pad then None else DecodeN(t, rest[pad..], n)
  }

  /** The bits of a packed tree followed by packed codes: the tree, its
      padding, the codes and theirs. */
  lemma {:induction false} UnpackParts(s: seq<bool>, e: seq<bool>)
    ensures Unpack(Pack(s) + Pack(e)) == s + (Zeros(PadBits(|s|)) + (e + Zeros(PadBits(|e|))))
  {
    var ps, pe := Pack(s), Pack(e);
    var zs, ze := Zeros(PadBits(|s|)), Zeros(PadBits(|e|));
    UnpackAppend(ps, pe);
    UnpackPack(s);
    UnpackPack(e);
    Regroup(s, zs, e + ze);
  }

  lemma {:induction false} Regroup(a: seq<bool>, b: seq<bool>, c: seq<bool>)
    ensures (a + b) + c == a + (b + c)
  {
  }

  /** The packed tree and codes read as the codes. */
  lemma {:induction false} ReadLayout(t: Tree, e: seq<bool>, n: nat, out: seq<byte>)
    requires DecodeN(t, e + Zeros(PadBits(|e|)), n) == Some(out)
    ensures ReadBody(Unpack(Pack(Serialize(t)) + Pack(e)), n) == Some(out)
  {
    var s := Serialize(t);
    var tail := Zeros(PadBits(|s|)) + (e + Zeros(PadBits(|e|)));
    UnpackParts(s, e);
    ReadSerialize(t, tail);
    assert tail[PadBits(|s|)..] == e + Zeros(PadBits(|e|));
  }

  /** A buffer laid out as `huffman_encode` lays it out reads as the codes
      after the tree and its padding. */
  lemma {:induction false} DecompressLayout(head: seq<byte>, t: Tree, e: seq<bool>, n: nat, out: seq<byte>)
    requires |head| == 4 && FromLE32(head) == n
    requires DecodeN(t, e + Zeros(PadBits(|e|)), n) == Some(out)
    ensures Decompress(head + Pack(Serialize(t)) + Pack(e)) == Some(out)
  {
    var bytes := head + Pack(Serialize(t)) + Pack(e);
    assert bytes[..4] == head;
    assert bytes[4..] == Pack(Serialize(t)) + Pack(e);
    ReadLayout(t, e, n, out);
  }
}
