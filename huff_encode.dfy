/** `encode` of huff.c: each input byte replaced by its code from the
    table `get_alphabet` filled in, the codes' bits packed most
    significant first into the caller's buffer. */
module HuffEncode {
  import opened Bits
  import opened HuffTree
  import opened HuffWalk
  import opened Sink

  /** The width of `code`, a `uint32_t`: `code << bit_cnt` wraps at it. */
  const CodeWidth: nat := 32

  /** The width of the accumulator `byte`, a `uint8_t`. */
  const ByteWidth: nat := 8

  /** A table entry as `get_alphabet` leaves it: at most `BIT_LIMIT` bits,
      with nothing set above them (`code` is a `uint32_t`). */
  predicate Fits(s: Symbol)
  {
    s.size <= BitLimit && s.code < Pow2(s.size)
  }

  /** The encoded stream: the codes of the input bytes, in order. */
  function Encoded(alphabet: seq<Symbol>, input: seq<byte>): seq<bool>
    requires |alphabet| == 256
  {
    if input == [] then []
    else Encoded(alphabet, input[..|input| - 1]) + CodeBits(alphabet[input[|input| - 1]])
  }

  /** One more byte appends its code. */
  lemma {:induction false} EncodedSnoc(alphabet: seq<Symbol>, s: seq<byte>, b: byte)
    requires |alphabet| == 256
    ensures Encoded(alphabet, s + [b]) == Encoded(alphabet, s) + CodeBits(alphabet[b])
  {
    assert (s + [b])[..|s|] == s;
  }

  /** Encoding is a homomorphism: the stream of `x + y` is that of `x`
      followed by that of `y`. */
  lemma {:induction false} EncodedAppend(alphabet: seq<Symbol>, x: seq<byte>, y: seq<byte>)
    requires |alphabet| == 256
    ensures Encoded(alphabet, x + y) == Encoded(alphabet, x) + Encoded(alphabet, y)
    decreases |y|
  {
    if y == [] {
      assert x + y == x;
    } else {
      var y', b := y[..|y| - 1], y[|y| - 1];
      assert y == y' + [b];
      assert x + y == (x + y') + [b];
      EncodedSnoc(alphabet, x + y', b);
      EncodedSnoc(alphabet, y', b);
      EncodedAppend(alphabet, x, y');
    }
  }

  /** The stream of the first `i + 1` bytes extends that of the first `i`
      by one code, and is part of the whole stream. */
  lemma {:induction false} EncodedStep(alphabet: seq<Symbol>, input: seq<byte>, i: nat)
    requires |alphabet| == 256 && i < |input|
    ensures Encoded(alphabet, input[..i + 1]) == Encoded(alphabet, input[..i]) + CodeBits(alphabet[input[i]])
    ensures |Encoded(alphabet, input[..i + 1])| <= |Encoded(alphabet, input)|
  {
    assert input[..i + 1][..i] == input[..i];
    EncodedAppend(alphabet, input[..i + 1], input[i + 1..]);
    assert input[..i + 1] + input[i + 1..] == input;
  }

  // ---------------------------------------------------------------------
  // One code: `while (sz)` writes it in chunks, each filling the byte
  // being built or ending the code.

  /** After writing the top `size - sz` bits of a `size`-bit code, `c`
      more bits extend them by the next `c` bits of the code. */
  lemma {:induction false} CodeChunk(code: nat, size: nat, sz: nat, c: nat)
    requires c <= sz <= size
    ensures ToBits(Shr(code, sz - c), size - (sz - c)) ==
            ToBits(Shr(code, sz), size - sz) + ToBits(Low(Shr(code, sz - c), c), c)
  {
    ToBitsSplit(Shr(code, sz - c), size - sz, c);
    ShrShr(code, sz - c, c);
    ToBitsLow(Shr(code, sz - c), c);
  }

  /** `bit_cnt -= sz; byte |= (code << bit_cnt);`: the rest of the code,
      its low `sz` bits, fits the byte being built. `code << bit_cnt` wraps
      at 32 bits and the result is truncated to the `uint8_t` accumulator,
      which loses nothing: either the code is whole and short enough, or
      the byte is empty and only the code's low bits are wanted. */
  lemma {:induction false} LastByte(pending: nat, bitCnt: nat, code: nat, size: nat, sz: nat)
    requires pending < 256 && 1 <= sz <= size && sz <= bitCnt <= 8 && code < Pow2(size)
    requires sz == size || bitCnt == 8
    ensures Low(BitOr(pending, Low(Shl(code, bitCnt - sz), CodeWidth)), ByteWidth) ==
            BitOr(pending, Shl(Low(code, sz), bitCnt - sz))
  {
    var k := bitCnt - sz;
    Pow2Of8();
    LowOfSmall(pending, ByteWidth);
    LowOr(pending, Low(Shl(code, k), CodeWidth), ByteWidth);
    LowLow(Shl(code, k), CodeWidth, ByteWidth);
    if sz == size {
      LowOfSmall(code, sz);
      ShlBound(code, sz, k);
      Pow2Mono(sz + k, 8);
      LowOfSmall(Shl(code, k), ByteWidth);
    } else {
      LowShl(code, k, sz);
    }
  }

  /** `sz -= bit_cnt; byte |= (code >> sz);`: the next `bit_cnt` bits of
      the code fill the byte being built; the higher bits of `code >> sz`
      are already written and fall off in the truncation to `uint8_t`. */
  lemma {:induction false} FillByte(pending: nat, bitCnt: nat, code: nat, size: nat, sz: nat)
    requires pending < 256 && 1 <= bitCnt < sz <= size && bitCnt <= 8 && code < Pow2(size)
    requires sz == size || bitCnt == 8
    ensures Low(BitOr(pending, Shr(code, sz - bitCnt)), ByteWidth) ==
            BitOr(pending, Shl(Low(Shr(code, sz - bitCnt), bitCnt), bitCnt - bitCnt))
  {
    var x := Shr(code, sz - bitCnt);
    Pow2Of8();
    LowOfSmall(pending, ByteWidth);
    LowOr(pending, x, ByteWidth);
    if sz == size {
      ShrBound(code, bitCnt, sz - bitCnt);
      LowOfSmall(x, bitCnt);
      Pow2Mono(bitCnt, 8);
      LowOfSmall(x, ByteWidth);
    }
    assert Shl(Low(x, bitCnt), 0) == Low(x, bitCnt);
  }

  /** Writing a chunk `w` of `c` bits after the part `head` of a code
      already written extends the stream to `e + z`. */
  lemma {:induction false} EmitChunk(out: seq<byte>, pending: nat, free: nat, e: seq<bool>, head: seq<bool>, w: nat, c: nat,
                  pending': nat, free': nat, z: seq<bool>)
    requires Writer(out, pending, free, e + head) && c <= free && w < Pow2(c)
    requires pending' == BitOr(pending, Shl(w, free - c)) && free' == free - c && z == head + ToBits(w, c)
    ensures Writer(out, pending', free', e + z)
  {
    EmitBits(out, pending, free, e + head, w, c);
    assert (e + head) + ToBits(w, c) == e + z;
  }

  /** A `size`-bit code is its top `size - sz` bits, then its low `sz`. */
  lemma {:induction false} CodeTail(code: nat, size: nat, sz: nat)
    requires sz <= size
    ensures ToBits(code, size) == ToBits(Shr(code, sz), size - sz) + ToBits(Low(code, sz), sz)
  {
    var top := size - sz;
    ToBitsSplit(code, top, sz);
    assert top + sz == size;
    ToBitsLow(code, sz);
  }

  /** The first branch of `while (sz)`, `bit_cnt -= sz; byte |= (code << bit_cnt);`:
      the rest of the code goes into the byte being built. */
  method PutLast(pending: nat, bitCnt: nat, code: nat, sz: nat, ghost size: nat,
                 ghost out: seq<byte>, ghost e: seq<bool>)
      returns (pending': nat, bitCnt': nat)
    requires 1 <= sz <= size && sz <= bitCnt <= 8 && code < Pow2(size)
    requires sz == size || bitCnt == 8
    requires Writer(out, pending, bitCnt, e + ToBits(Shr(code, sz), size - sz))
    ensures bitCnt' == bitCnt - sz
    ensures Writer(out, pending', bitCnt', e + ToBits(code, size))
  {
    bitCnt' := bitCnt - sz;
    pending' := Low(BitOr(pending, Low(Shl(code, bitCnt'), CodeWidth)), ByteWidth);
    ghost var head := ToBits(Shr(code, sz), size - sz);
    WriterPending(out, pending, bitCnt, e + head);
    LastByte(pending, bitCnt, code, size, sz);
    CodeTail(code, size, sz);
    EmitChunk(out, pending, bitCnt, e, head, Low(code, sz), sz, pending', bitCnt', ToBits(code, size));
  }

  /** The second branch of `while (sz)`, `sz -= bit_cnt; byte |= (code >> sz);`:
      the next `bit_cnt` bits of the code fill the byte. */
  method PutFill(pending: nat, bitCnt: nat, code: nat, sz: nat, ghost size: nat,
                 ghost out: seq<byte>, ghost e: seq<bool>)
      returns (pending': nat, sz': nat)
    requires 1 <= bitCnt < sz <= size && bitCnt <= 8 && code < Pow2(size)
    requires sz == size || bitCnt == 8
    requires Writer(out, pending, bitCnt, e + ToBits(Shr(code, sz), size - sz))
    ensures sz' == sz - bitCnt
    ensures Writer(out, pending', 0, e + ToBits(Shr(code, sz'), size - sz'))
  {
    sz' := sz - bitCnt;
    pending' := Low(BitOr(pending, Shr(code, sz')), ByteWidth);
    ghost var head := ToBits(Shr(code, sz), size - sz);
    WriterPending(out, pending, bitCnt, e + head);
    FillByte(pending, bitCnt, code, size, sz);
    CodeChunk(code, size, sz, bitCnt);
    EmitChunk(out, pending, bitCnt, e, head, Low(Shr(code, sz - bitCnt), bitCnt), bitCnt,
              pending', 0, ToBits(Shr(code, sz'), size - sz'));
  }

  /** One turn of `while (sz)` before the flush: either the rest of the
      code goes into the byte being built, or the byte is filled. */
  method PutChunk(pending: nat, bitCnt: nat, code: nat, sz: nat, ghost size: nat,
                  ghost out: seq<byte>, ghost e: seq<bool>)
      returns (pending': nat, bitCnt': nat, sz': nat)
    requires 1 <= bitCnt <= 8 && 1 <= sz <= size && code < Pow2(size)
    requires sz == size || bitCnt == 8
    requires Writer(out, pending, bitCnt, e + ToBits(Shr(code, sz), size - sz))
    ensures sz' < sz && (sz' == 0 || bitCnt' == 0)
    ensures Writer(out, pending', bitCnt', e + ToBits(Shr(code, sz'), size - sz'))
  {
    if bitCnt >= sz {
      pending', bitCnt' := PutLast(pending, bitCnt, code, sz, size, out, e);
      sz' := 0;
      assert Shr(code, sz') == code;
    } else {
      pending', sz' := PutFill(pending, bitCnt, code, sz, size, out, e);
      bitCnt' := 0;
    }
  }

  /** The inner loop of `encode`: one code written after the stream `e`,
      full bytes being flushed as they fill. */
  method PutCode(buf: array<byte>, start: nat, len: nat, pending: nat, bitCnt: nat, code: nat, size: nat,
                 ghost out: seq<byte>, ghost e: seq<bool>, ghost orig: seq<byte>, ghost limit: nat)
      returns (len': nat, pending': nat, bitCnt': nat, ghost out': seq<byte>)
    requires Holds(buf[..], orig, start, out) && len == |out|
    requires Writer(out, pending, bitCnt, e) && 1 <= bitCnt
    requires code < Pow2(size)
    requires |e| + size <= limit && start + (limit + 7) / 8 <= buf.Length
    modifies buf
    ensures Holds(buf[..], orig, start, out') && len' == |out'|
    ensures Writer(out', pending', bitCnt', e + ToBits(code, size)) && 1 <= bitCnt'
  {
    len', pending', bitCnt', out' := len, pending, bitCnt, out;
    var sz: nat := size;
    assert e + ToBits(Shr(code, sz), size - sz) == e;
    while sz != 0
      invariant sz <= size && 1 <= bitCnt' <= 8
      invariant 0 < sz < size ==> bitCnt' == 8
      invariant Holds(buf[..], orig, start, out') && len' == |out'|
      invariant Writer(out', pending', bitCnt', e + ToBits(Shr(code, sz), size - sz))
      decreases sz
    {
      pending', bitCnt', sz := PutChunk(pending', bitCnt', code, sz, size, out', e);
      len', pending', bitCnt', out' := FlushIfFull(buf, start, len', pending', bitCnt', out',
                                                    e + ToBits(Shr(code, sz), size - sz), orig, limit);
    }
  }

  /** `encode`: the input's codes, packed into the buffer at `start`;
      nothing else in the buffer changes. Every byte of the input has a
      code of at most `BIT_LIMIT` bits. */
  method Encode(input: seq<byte>, buf: array<byte>, start: nat, alphabet: array<Symbol>) returns (len: nat)
    requires alphabet.Length == 256
    requires forall i :: 0 <= i < |input| ==> Fits(alphabet[input[i]])
    requires start + |Pack(Encoded(alphabet[..], input))| <= buf.Length
    modifies buf
    ensures len == |Pack(Encoded(alphabet[..], input))|
    ensures Holds(buf[..], old(buf[..]), start, Pack(Encoded(alphabet[..], input)))
  {
    ghost var a := alphabet[..];
    ghost var orig := buf[..];
    ghost var limit := |Encoded(a, input)|;
    ghost var out: seq<byte> := [];
    len := 0;
    var pending: nat := 0;
    var bitCnt: nat := 8;
    WriterStart();
    HoldsNothing(buf[..], start);
    assert input[..0] == [];
    for i := 0 to |input|
      invariant alphabet[..] == a
      invariant Holds(buf[..], orig, start, out) && len == |out|
      invariant Writer(out, pending, bitCnt, Encoded(a, input[..i])) && 1 <= bitCnt
    {
      var ind := input[i];
      var sz := alphabet[ind].size;
      var code := alphabet[ind].code;
      EncodedStep(a, input, i);
      len, pending, bitCnt, out := PutCode(buf, start, len, pending, bitCnt, code, sz, out,
                                           Encoded(a, input[..i]), orig, limit);
    }
    assert input[..|input|] == input;
    len := FlushLast(buf, start, len, pending, bitCnt, out, Encoded(a, input), orig);
  }
}
