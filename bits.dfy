/** Bit-level arithmetic shared by the heap and the codec: powers of two,
    C's `<<`, `>>`, `|` and truncation on unsigned integers, MSB-first bit
    strings, and packing of bit strings into zero-padded bytes. */
module Bits {

  /** An unsigned 8-bit value (`uint8_t`). */
  type byte = b: int | 0 <= b < 256

  function Pow2(k: nat): (r: nat)
    ensures r >= 1
  {
    if k == 0 then 1 else 2 * Pow2(k - 1)
  }

  /** C's `x << k` on an unbounded unsigned value (truncation is applied
      separately, with `Low`). */
  function Shl(x: nat, k: nat): nat
  {
    if k == 0 then x else 2 * Shl(x, k - 1)
  }

  /** C's `x >> k` on an unsigned value. */
  function Shr(x: nat, k: nat): nat
  {
    if k == 0 then x else Shr(x / 2, k - 1)
  }

  /** The low `k` bits of `x`: truncation to a `k`-bit unsigned type. */
  function Low(x: nat, k: nat): (r: nat)
    ensures r < Pow2(k)
  {
    if k == 0 then 0 else 2 * Low(x / 2, k - 1) + x % 2
  }

  lemma {:induction false} Pow2Add(a: nat, b: nat)
    ensures Pow2(a + b) == Shl(Pow2(a), b)
  {
    if b > 0 {
      Pow2Add(a, b - 1);
    }
  }

  lemma {:induction false} Pow2Mono(a: nat, b: nat)
    requires a <= b
    ensures Pow2(a) <= Pow2(b)
  {
    if a < b {
      Pow2Mono(a, b - 1);
    }
  }

  lemma {:induction false} ShlAdd(x: nat, a: nat, b: nat)
    ensures Shl(x, a + b) == Shl(Shl(x, a), b)
  {
    if b > 0 {
      ShlAdd(x, a, b - 1);
    }
  }

  lemma {:induction false} ShlPlus(x: nat, y: nat, k: nat)
    ensures Shl(x + y, k) == Shl(x, k) + Shl(y, k)
  {
    if k > 0 {
      ShlPlus(x, y, k - 1);
    }
  }

  lemma {:induction false} ShlMono(x: nat, y: nat, k: nat)
    requires x <= y
    ensures Shl(x, k) <= Shl(y, k)
  {
    if k > 0 {
      ShlMono(x, y, k - 1);
    }
  }

  lemma {:induction false} ShlZero(k: nat)
    ensures Shl(0, k) == 0
  {
    if k > 0 {
      ShlZero(k - 1);
    }
  }

  /** A value below 2^n shifted left by k stays below 2^(n+k). */
  lemma {:induction false} ShlBound(x: nat, n: nat, k: nat)
    requires x < Pow2(n)
    ensures Shl(x, k) < Pow2(n + k)
  {
    if k > 0 {
      ShlBound(x, n, k - 1);
    }
  }

  /** Every value is its high part shifted back plus its low part. */
  lemma {:induction false} ShrLow(x: nat, k: nat)
    ensures x == Shl(Shr(x, k), k) + Low(x, k)
  {
    if k > 0 {
      ShrLow(x / 2, k - 1);
      ShlPlus(Shl(Shr(x / 2, k - 1), k - 1), Low(x / 2, k - 1), 1);
      assert Shl(Shr(x, k), k) == 2 * Shl(Shr(x / 2, k - 1), k - 1) by {
        ShlAdd(Shr(x, k), k - 1, 1);
      }
    }
  }

  lemma {:induction false} ShrShl(x: nat, y: nat, k: nat)
    requires y < Pow2(k)
    ensures Shr(Shl(x, k) + y, k) == x && Low(Shl(x, k) + y, k) == y
  {
    if k > 0 {
      assert Shl(x, k) == 2 * Shl(x, k - 1);
      var z := Shl(x, k) + y;
      assert z / 2 == Shl(x, k - 1) + y / 2;
      ShrShl(x, y / 2, k - 1);
    }
  }

  lemma {:induction false} LowOfSmall(x: nat, k: nat)
    requires x < Pow2(k)
    ensures Low(x, k) == x && Shr(x, k) == 0
  {
    ShlZero(k);
    ShrShl(0, x, k);
  }

  lemma {:induction false} ShrShr(x: nat, a: nat, b: nat)
    ensures Shr(Shr(x, a), b) == Shr(x, a + b)
  {
    if a > 0 {
      ShrShr(x / 2, a - 1, b);
    }
  }

  /** Truncating to `b` bits after truncating to `a >= b` bits. */
  lemma {:induction false} LowLow(x: nat, a: nat, b: nat)
    requires b <= a
    ensures Low(Low(x, a), b) == Low(x, b)
  {
    if b > 0 {
      LowLow(x / 2, a - 1, b - 1);
      assert Low(x, a) / 2 == Low(x / 2, a - 1);
    }
  }

  /** Truncating `x << k` to `k + m` bits keeps the low `m` bits of `x`. */
  lemma {:induction false} LowShl(x: nat, k: nat, m: nat)
    ensures Low(Shl(x, k), k + m) == Shl(Low(x, m), k)
  {
    if k > 0 {
      LowShl(x, k - 1, m);
      assert Shl(x, k) / 2 == Shl(x, k - 1);
      assert Low(Shl(x, k), k + m) == 2 * Low(Shl(x, k - 1), k - 1 + m);
    }
  }

  lemma {:induction false} LowShlZero(x: nat, k: nat)
    ensures Low(Shl(x, k), k) == 0
  {
    ShlZero(k);
    LowShl(x, k, 0);
  }

  /** `Shr(x, k)` is below 2^n when `x` is below 2^(n+k). */
  lemma {:induction false} ShrBound(x: nat, n: nat, k: nat)
    requires x < Pow2(n + k)
    ensures Shr(x, k) < Pow2(n)
  {
    if k > 0 {
      ShrBound(x / 2, n, k - 1);
    }
  }

  /** C's `a | b` on unsigned integers. */
  function BitOr(a: nat, b: nat): nat
    decreases a + b
  {
    if a == 0 then b
    else if b == 0 then a
    else 2 * BitOr(a / 2, b / 2) + (if a % 2 == 1 || b % 2 == 1 then 1 else 0)
  }

  lemma {:induction false} OrHalves(a: nat, b: nat)
    ensures BitOr(a, b) / 2 == BitOr(a / 2, b / 2)
    ensures BitOr(a, b) % 2 == if a % 2 == 1 || b % 2 == 1 then 1 else 0
  {
    if a == 0 {
      assert BitOr(a / 2, b / 2) == b / 2;
    } else if b == 0 {
      assert BitOr(a / 2, b / 2) == a / 2;
    }
  }

  lemma {:induction false} LowHalves(x: nat, k: nat)
    requires k > 0
    ensures Low(x, k) / 2 == Low(x / 2, k - 1) && Low(x, k) % 2 == x % 2
  {
  }

  /** Truncation distributes over `|`: assigning `a | b` to a `k`-bit
      variable keeps the low `k` bits of each operand. */
  lemma {:induction false} LowOr(a: nat, b: nat, k: nat)
    ensures Low(BitOr(a, b), k) == BitOr(Low(a, k), Low(b, k))
  {
    if k > 0 {
      var x, y := Low(BitOr(a, b), k), BitOr(Low(a, k), Low(b, k));
      LowHalves(BitOr(a, b), k);
      OrHalves(a, b);
      OrHalves(Low(a, k), Low(b, k));
      LowHalves(a, k);
      LowHalves(b, k);
      LowOr(a / 2, b / 2, k - 1);
      assert x / 2 == y / 2 && x % 2 == y % 2;
    }
  }

  /** When the set bits of `a` and `b` do not overlap, `a | b` is `a + b`. */
  lemma {:induction false} OrDisjoint(a: nat, b: nat, k: nat)
    requires Low(a, k) == 0 && b < Pow2(k)
    ensures BitOr(a, b) == a + b
  {
    if a != 0 && b != 0 {
      assert k > 0;
      OrDisjoint(a / 2, b / 2, k - 1);
    }
  }

  /** Bit `i` of `x` (bit 0 is the least significant). */
  predicate Bit(x: nat, i: nat)
  {
    if i == 0 then x % 2 == 1 else Bit(x / 2, i - 1)
  }

  lemma {:induction false} ZeroHasNoBits(i: nat)
    ensures !Bit(0, i)
  {
    if i > 0 {
      ZeroHasNoBits(i - 1);
    }
  }

  lemma {:induction false} BitOfOr(a: nat, b: nat, i: nat)
    ensures Bit(BitOr(a, b), i) == (Bit(a, i) || Bit(b, i))
    decreases i
  {
    OrHalves(a, b);
    if i > 0 {
      BitOfOr(a / 2, b / 2, i - 1);
    }
  }

  /** Bit `i` of `x >> k` is bit `i + k` of `x`. */
  lemma {:induction false} BitOfShr(x: nat, k: nat, i: nat)
    ensures Bit(Shr(x, k), i) == Bit(x, i + k)
  {
    if k > 0 {
      BitOfShr(x / 2, k - 1, i);
    }
  }

  /** `Bit(x, i)` is C's `(x >> i) & 1`. */
  lemma {:induction false} BitIsShrAnd(x: nat, i: nat)
    ensures Bit(x, i) == (Shr(x, i) % 2 == 1)
  {
    BitOfShr(x, i, 0);
  }

  /** A value below 2^n has no bit set at or above n. */
  lemma {:induction false} BitAboveBound(x: nat, n: nat, i: nat)
    requires x < Pow2(n) && n <= i
    ensures !Bit(x, i)
  {
    if n == 0 {
      ZeroHasNoBits(i);
    } else if i > 0 {
      BitAboveBound(x / 2, n - 1, i - 1);
    }
  }

  /** Two values below 2^n with the same low n bits are equal. */
  lemma {:induction false} BitExtensionality(x: nat, y: nat, n: nat)
    requires x < Pow2(n) && y < Pow2(n)
    requires forall i :: 0 <= i < n ==> Bit(x, i) == Bit(y, i)
    ensures x == y
  {
    if n > 0 {
      assert Bit(x, 0) == Bit(y, 0);
      forall i | 0 <= i < n - 1
        ensures Bit(x / 2, i) == Bit(y / 2, i)
      {
        assert Bit(x, i + 1) == Bit(y, i + 1);
      }
      BitExtensionality(x / 2, y / 2, n - 1);
    }
  }

  /** The number of bits needed to write `x`. */
  function BitLength(x: nat): (n: nat)
    ensures x < Pow2(n)
    ensures x > 0 ==> Pow2(n - 1) <= x
  {
    if x == 0 then 0 else 1 + BitLength(x / 2)
  }

  lemma {:induction false} TopBitSet(x: nat)
    requires x > 0
    ensures Bit(x, BitLength(x) - 1)
  {
    if x / 2 > 0 {
      TopBitSet(x / 2);
    }
  }

  /** The bits of 2^n - 1 are exactly the n lowest ones. */
  lemma {:induction false} BitOfMask(n: nat, i: nat)
    ensures Bit(Pow2(n) - 1, i) == (i < n)
  {
    if n == 0 {
      ZeroHasNoBits(i);
    } else if i > 0 {
      BitOfMask(n - 1, i - 1);
    }
  }

  // ---------------------------------------------------------------------
  // MSB-first bit strings

  /** The low `n` bits of `v`, most significant first. */
  function ToBits(v: nat, n: nat): (s: seq<bool>)
    ensures |s| == n
  {
    if n == 0 then [] else ToBits(v / 2, n - 1) + [v % 2 == 1]
  }

  /** The number an MSB-first bit string denotes. */
  function Value(s: seq<bool>): nat
  {
    if |s| == 0 then 0 else 2 * Value(s[..|s| - 1]) + (if s[|s| - 1] then 1 else 0)
  }

  function Zeros(n: nat): (s: seq<bool>)
    ensures |s| == n && forall i :: 0 <= i < n ==> !s[i]
  {
    if n == 0 then [] else Zeros(n - 1) + [false]
  }

  lemma {:induction false} ValueBound(s: seq<bool>)
    ensures Value(s) < Pow2(|s|)
  {
    if |s| > 0 {
      ValueBound(s[..|s| - 1]);
    }
  }

  lemma {:induction false} ValueOfToBits(v: nat, n: nat)
    ensures Value(ToBits(v, n)) == Low(v, n)
  {
    if n > 0 {
      assert ToBits(v, n)[..n - 1] == ToBits(v / 2, n - 1);
      ValueOfToBits(v / 2, n - 1);
    }
  }

  lemma {:induction false} ToBitsOfValue(s: seq<bool>)
    ensures ToBits(Value(s), |s|) == s
  {
    if |s| > 0 {
      var p := s[..|s| - 1];
      ToBitsOfValue(p);
      assert Value(s) / 2 == Value(p);
      assert s == p + [s[|s| - 1]];
    }
  }

  lemma {:induction false} ValueAppend(p: seq<bool>, q: seq<bool>)
    ensures Value(p + q) == Shl(Value(p), |q|) + Value(q)
  {
    if |q| > 0 {
      var q' := q[..|q| - 1];
      assert (p + q)[..|p + q| - 1] == p + q';
      ValueAppend(p, q');
    } else {
      assert p + q == p;
    }
  }

  lemma {:induction false} ValueOfZeros(n: nat)
    ensures Value(Zeros(n)) == 0
  {
    if n > 0 {
      assert Zeros(n)[..n - 1] == Zeros(n - 1);
      ValueOfZeros(n - 1);
    }
  }

  /** The low `a + b` bits of `v` are the low `a` bits of `v >> b` followed
      by the low `b` bits of `v`. */
  lemma {:induction false} ToBitsSplit(v: nat, a: nat, b: nat)
    ensures ToBits(v, a + b) == ToBits(Shr(v, b), a) + ToBits(v, b)
  {
    if b > 0 {
      ToBitsSplit(v / 2, a, b - 1);
      assert ToBits(v, a + b) == ToBits(v / 2, a + b - 1) + [v % 2 == 1];
    }
  }

  /** Only the low `n` bits of `v` matter to `ToBits(v, n)`. */
  lemma {:induction false} ToBitsLow(v: nat, n: nat)
    ensures ToBits(Low(v, n), n) == ToBits(v, n)
  {
    ValueOfToBits(v, n);
    ToBitsOfValue(ToBits(v, n));
  }

  /** Position `n - 1 - i` of `ToBits(v, n)` holds bit `i` of `v`. */
  lemma {:induction false} ToBitsAt(v: nat, n: nat, i: nat)
    requires i < n
    ensures ToBits(v, n)[n - 1 - i] == Bit(v, i)
  {
    if i > 0 {
      ToBitsAt(v / 2, n - 1, i - 1);
    }
  }

  // ---------------------------------------------------------------------
  // Packing bit strings into bytes, MSB first, last byte zero-padded

  function Pack(s: seq<bool>): (r: seq<byte>)
    ensures |r| == (|s| + 7) / 8
    decreases |s|
  {
    if |s| == 0 then []
    else if |s| < 8 then
      ValueBound(s);
      ShlBound(Value(s), |s|, 8 - |s|);
      [Shl(Value(s), 8 - |s|)]
    else
      ValueBound(s[..8]);
      [Value(s[..8])] + Pack(s[8..])
  }

  function Unpack(bytes: seq<byte>): (s: seq<bool>)
    ensures |s| == 8 * |bytes|
  {
    if |bytes| == 0 then [] else ToBits(bytes[0], 8) + Unpack(bytes[1..])
  }

  /** The number of zero bits that pad `n` bits to a whole byte. */
  function PadBits(n: nat): nat
  {
    (8 - n % 8) % 8
  }

  lemma {:induction false} PackAppend(p: seq<bool>, q: seq<bool>)
    requires |p| % 8 == 0
    ensures Pack(p + q) == Pack(p) + Pack(q)
    decreases |p|
  {
    if |p| > 0 {
      assert (p + q)[..8] == p[..8];
      assert (p + q)[8..] == p[8..] + q;
      PackAppend(p[8..], q);
    } else {
      assert p + q == q;
    }
  }

  lemma {:induction false} UnpackAppend(a: seq<byte>, b: seq<byte>)
    ensures Unpack(a + b) == Unpack(a) + Unpack(b)
  {
    if |a| > 0 {
      assert (a + b)[1..] == a[1..] + b;
      UnpackAppend(a[1..], b);
    } else {
      assert a + b == b;
    }
  }

  /** Unpacking what `Pack` wrote gives back the bits and the padding. */
  lemma {:induction false} UnpackPack(s: seq<bool>)
    ensures Unpack(Pack(s)) == s + Zeros(PadBits(|s|))
    decreases |s|
  {
    if |s| == 0 {
    } else if |s| < 8 {
      UnpackShort(s);
    } else {
      UnpackPack(s[8..]);
      UnpackLong(s);
    }
  }

  lemma {:induction false} UnpackLong(s: seq<bool>)
    requires |s| >= 8
    requires Unpack(Pack(s[8..])) == s[8..] + Zeros(PadBits(|s| - 8))
    ensures Unpack(Pack(s)) == s + Zeros(PadBits(|s|))
  {
    var head, rest := s[..8], s[8..];
    var z := Zeros(PadBits(|rest|));
    var b := PackLong(s);
    assert Unpack(Pack(s)) == ToBits(b, 8) + (rest + z) by {
      UnpackCons(b, Pack(rest));
    }
    assert ToBits(b, 8) == head by {
      ToBitsOfValue(head);
    }
    assert head + (rest + z) == s + z by {
      BitsRegroup(head, rest, z);
      assert s == head + rest;
    }
    assert PadBits(|s|) == PadBits(|rest|);
  }

  /** A full first byte holds the first eight bits. */
  lemma {:induction false} PackLong(s: seq<bool>) returns (b: byte)
    requires |s| >= 8
    ensures b == Value(s[..8]) && Pack(s) == [b] + Pack(s[8..])
  {
    ValueBound(s[..8]);
    Pow2Of8();
    b := Value(s[..8]);
  }

  lemma {:induction false} BitsRegroup(a: seq<bool>, b: seq<bool>, c: seq<bool>)
    ensures a + (b + c) == (a + b) + c
  {
  }

  lemma {:induction false} Pow2Of8()
    ensures Pow2(8) == 256
  {
    assert Pow2(2) == 4;
    assert Pow2(4) == 16;
    assert Pow2(6) == 64;
  }

  lemma {:induction false} UnpackSingle(b: byte)
    ensures Unpack([b]) == ToBits(b, 8)
  {
    assert [b][1..] == [];
  }

  lemma {:induction false} UnpackCons(b: byte, rest: seq<byte>)
    ensures Unpack([b] + rest) == ToBits(b, 8) + Unpack(rest)
  {
    assert ([b] + rest)[1..] == rest;
  }

  lemma {:induction false} UnpackShort(s: seq<bool>)
    requires 0 < |s| < 8
    ensures Unpack(Pack(s)) == s + Zeros(PadBits(|s|))
  {
    var k := 8 - |s|;
    var x := PackShort(s);
    calc {
      Unpack(Pack(s));
      Unpack([x]);
      { UnpackSingle(x); }
      ToBits(x, 8);
      { ShortByteBits(s, k, 8); }
      s + Zeros(k);
      { assert |s| % 8 == |s|; }
      s + Zeros(PadBits(|s|));
    }
  }

  /** A partial final byte holds the bits at its top. */
  lemma {:induction false} PackShort(s: seq<bool>) returns (x: byte)
    requires 0 < |s| < 8
    ensures x == Shl(Value(s), 8 - |s|) && Pack(s) == [x]
  {
    ValueBound(s);
    ShlBound(Value(s), |s|, 8 - |s|);
    Pow2Of8();
    x := Shl(Value(s), 8 - |s|);
  }

  /** `s` followed by `k` zero bits is the value of `s` shifted left by k. */
  lemma {:induction false} ShortByteBits(s: seq<bool>, k: nat, n: nat)
    requires |s| + k == n
    ensures ToBits(Shl(Value(s), k), n) == s + Zeros(k)
  {
    var x := Shl(Value(s), k);
    assert x == Shl(Value(s), k) + 0;
    ShrShl(Value(s), 0, k);
    assert Shr(x, k) == Value(s) && Low(x, k) == 0;
    ToBitsSplit(x, |s|, k);
    assert ToBits(x, n) == ToBits(Value(s), |s|) + ToBits(x, k);
    ToBitsOfValue(s);
    ToBitsLow(x, k);
    assert ToBits(x, k) == ToBits(0, k);
    ValueOfZeros(k);
    ToBitsOfValue(Zeros(k));
  }

  // ---------------------------------------------------------------------
  // A byte-at-a-time bit writer: complete bytes in `out`, the bits of the
  // byte being filled at the top of `pending`, `free` low bits still unused.

  ghost predicate Writer(out: seq<byte>, pending: nat, free: nat, emitted: seq<bool>)
  {
    free <= 8 &&
    |emitted| == 8 * |out| + (8 - free) &&
    out == Pack(emitted[..8 * |out|]) &&
    pending == Shl(Value(emitted[8 * |out|..]), free)
  }

  lemma {:induction false} WriterStart()
    ensures Writer([], 0, 8, [])
  {
  }

  /** Writing the `c`-bit value `w` into the `free` unused bits: C's
      `pending |= w << (free - c)` appends `w`'s bits to the stream. */
  lemma {:induction false} WriterEmit(out: seq<byte>, pending: nat, free: nat, emitted: seq<bool>, w: nat, c: nat)
    requires Writer(out, pending, free, emitted)
    requires c <= free && w < Pow2(c)
    ensures BitOr(pending, Shl(w, free - c)) == pending + Shl(w, free - c)
    ensures Writer(out, pending + Shl(w, free - c), free - c, emitted + ToBits(w, c))
  {
    EmitIsDisjoint(Value(emitted[8 * |out|..]), pending, free, w, c);
    EmitAppends(out, pending, free, emitted, w, c);
  }

  /** The pending bits fit the byte accumulator. */
  lemma {:induction false} WriterPending(out: seq<byte>, pending: nat, free: nat, emitted: seq<bool>)
    requires Writer(out, pending, free, emitted)
    ensures pending < 256
  {
    var tail := emitted[8 * |out|..];
    ValueBound(tail);
    ShlBound(Value(tail), |tail|, free);
    Pow2Of8();
  }

  /** Writing the `c`-bit value `w` into the `free` unused bits, in the
      form C writes it: `pending | (w << (free - c))`. */
  lemma {:induction false} EmitBits(out: seq<byte>, pending: nat, free: nat, emitted: seq<bool>, w: nat, c: nat)
    requires Writer(out, pending, free, emitted)
    requires c <= free && w < Pow2(c)
    ensures Writer(out, BitOr(pending, Shl(w, free - c)), free - c, emitted + ToBits(w, c))
  {
    WriterEmit(out, pending, free, emitted, w, c);
  }

  /** Writing a one: `free--; pending |= 1 << free`. */
  lemma {:induction false} EmitOne(out: seq<byte>, pending: nat, free: nat, emitted: seq<bool>)
    requires Writer(out, pending, free, emitted) && free >= 1
    ensures Writer(out, BitOr(pending, Shl(1, free - 1)), free - 1, emitted + [true])
  {
    WriterEmit(out, pending, free, emitted, 1, 1);
    assert ToBits(1, 1) == [true];
  }

  /** Writing a zero: `free--`, the pending byte staying as it is. */
  lemma {:induction false} EmitZero(out: seq<byte>, pending: nat, free: nat, emitted: seq<bool>)
    requires Writer(out, pending, free, emitted) && free >= 1
    ensures Writer(out, pending, free - 1, emitted + [false])
  {
    WriterEmit(out, pending, free, emitted, 0, 1);
    ShlZero(free - 1);
    assert ToBits(0, 1) == [false];
  }

  /** Writing a one-bit value `w` at the top free position:
      `free--; pending |= w << free`. */
  lemma {:induction false} EmitAt(out: seq<byte>, pending: nat, free: nat, emitted: seq<bool>, w: nat)
    requires Writer(out, pending, free, emitted) && 1 <= free && w < 2
    ensures Writer(out, BitOr(pending, Shl(w, free - 1)), free - 1, emitted + ToBits(w, 1))
  {
    WriterEmit(out, pending, free, emitted, w, 1);
  }

  /** The pending bits sit above the `free` low bits, so OR-ing the new
      value in is addition. */
  lemma {:induction false} EmitIsDisjoint(t: nat, pending: nat, free: nat, w: nat, c: nat)
    requires pending == Shl(t, free)
    requires c <= free && w < Pow2(c)
    ensures BitOr(pending, Shl(w, free - c)) == pending + Shl(w, free - c)
  {
    var k := free - c;
    ShlBound(w, c, k);
    Pow2Mono(c + k, free);
    LowShlZero(t, free);
    OrDisjoint(pending, Shl(w, k), free);
  }

  lemma {:induction false} EmitAppends(out: seq<byte>, pending: nat, free: nat, emitted: seq<bool>, w: nat, c: nat)
    requires Writer(out, pending, free, emitted)
    requires c <= free && w < Pow2(c)
    ensures Writer(out, pending + Shl(w, free - c), free - c, emitted + ToBits(w, c))
  {
    var n := 8 * |out|;
    var bits := ToBits(w, c);
    var e' := emitted + bits;
    assert e'[..n] == emitted[..n];
    assert e'[n..] == emitted[n..] + bits;
    AppendedValue(emitted[n..], w, c, free - c);
  }

  lemma {:induction false} AppendedValue(tail: seq<bool>, w: nat, c: nat, k: nat)
    requires w < Pow2(c)
    ensures Shl(Value(tail + ToBits(w, c)), k) == Shl(Value(tail), c + k) + Shl(w, k)
  {
    var v := Value(tail);
    ValueAppend(tail, ToBits(w, c));
    ValueOfToBits(w, c);
    LowOfSmall(w, c);
    ShlPlus(Shl(v, c), w, k);
    ShlAdd(v, c, k);
  }

  /** A full pending byte is flushed to the output. */
  lemma {:induction false} WriterFlush(out: seq<byte>, pending: nat, emitted: seq<bool>)
    requires Writer(out, pending, 0, emitted)
    ensures pending < 256
    ensures Writer(out + [pending], 0, 8, emitted)
  {
    var n := 8 * |out|;
    var chunk := emitted[n..];
    assert |chunk| == 8;
    ValueBound(chunk);
    assert emitted[..n + 8] == emitted[..n] + chunk;
    PackAppend(emitted[..n], chunk);
    assert chunk[..8] == chunk && chunk[8..] == [];
    assert Pack(chunk) == [Value(chunk)];
    assert emitted[n + 8..] == [];
  }

  /** The stream ends by flushing a partly filled byte, if any. */
  lemma {:induction false} WriterFinish(out: seq<byte>, pending: nat, free: nat, emitted: seq<bool>)
    requires Writer(out, pending, free, emitted) && free >= 1
    ensures free == 8 ==> out == Pack(emitted)
    ensures free < 8 ==> pending < 256 && out + [pending] == Pack(emitted)
  {
    var n := 8 * |out|;
    var tail := emitted[n..];
    assert emitted == emitted[..n] + tail;
    PackAppend(emitted[..n], tail);
    assert Pack(emitted) == out + Pack(tail);
    if free < 8 {
      assert |tail| == 8 - free;
      assert 0 < |tail| < 8;
      assert Pack(tail) == [Shl(Value(tail), 8 - |tail|)];
      assert Pack(tail) == [pending];
      ValueBound(tail);
      ShlBound(Value(tail), |tail|, free);
    } else {
      assert tail == [];
    }
  }
}
