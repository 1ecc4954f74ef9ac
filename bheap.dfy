/** The binary min-heap of bheap.c: a 1-indexed, power-of-two-capacity array
    of node pointers ordered by the nodes' `frequency`. The nodes themselves
    live in the arena `mem` (see HeapNodes); the heap stores their addresses. */
module BHeap {
  import opened Bits
  import opened HeapNodes

  /** BHEAP_MIN_SIZE */
  const MinSize: nat := 8

  /** 2^64: `size_t` arithmetic wraps modulo this. */
  const SizeMod: nat := 0x1_0000_0000_0000_0000

  /** The largest power of two a 64-bit `size_t` holds. */
  const MaxSize: nat := 0x8000_0000_0000_0000

  ghost predicate IsPow2(n: nat)
  {
    n == 1 || (n >= 2 && n % 2 == 0 && IsPow2(n / 2))
  }

  /** `r` is the least power of two that is at least `v`. */
  ghost predicate IsLeastPow2AtLeast(r: nat, v: nat)
  {
    IsPow2(r) && v <= r && r < 2 * v
  }

  lemma {:induction false} Pow2IsPow2(k: nat)
    ensures IsPow2(Pow2(k))
  {
    if k > 0 {
      Pow2IsPow2(k - 1);
    }
  }

  /** The next power of two above a power of two `m` is `2 * m`. */
  lemma {:induction false} Pow2Gap(h: nat, m: nat)
    requires IsPow2(h) && IsPow2(m) && m < h
    ensures 2 * m <= h
  {
    if m != 1 {
      Pow2Gap(h / 2, m / 2);
    }
  }

  // ---------------------------------------------------------------------
  // next_power_of_two

  /** C's `a & b` on unsigned integers. */
  function BitAnd(a: nat, b: nat): nat
    decreases a + b
  {
    if a == 0 || b == 0 then 0
    else 2 * BitAnd(a / 2, b / 2) + (if a % 2 == 1 && b % 2 == 1 then 1 else 0)
  }

  lemma {:induction false} BitAndSelf(a: nat)
    ensures BitAnd(a, a) == a
  {
    if a != 0 {
      BitAndSelf(a / 2);
    }
  }

  /** `h & (h - 1)` is zero exactly for the powers of two. */
  lemma {:induction false} ClearLowestBit(h: nat)
    requires h >= 1
    ensures (BitAnd(h, h - 1) == 0) == IsPow2(h)
  {
    if h >= 2 {
      if h % 2 == 0 {
        assert (h - 1) / 2 == h / 2 - 1;
        ClearLowestBit(h / 2);
      } else {
        assert (h - 1) / 2 == h / 2;
        BitAndSelf(h / 2);
      }
    }
  }

  /** The OR of `w >> 0`, `w >> 1`, ..., `w >> (n - 1)`: what smearing the
      bits of `w` downwards across `n` positions computes. */
  function Smeared(w: nat, n: nat): nat
  {
    if n == 0 then 0 else BitOr(Smeared(w, n - 1), Shr(w, n - 1))
  }

  lemma {:induction false} OrBound(a: nat, b: nat, k: nat)
    requires a < Pow2(k) && b < Pow2(k)
    ensures BitOr(a, b) < Pow2(k)
  {
    if a != 0 && b != 0 {
      OrBound(a / 2, b / 2, k - 1);
    }
  }

  lemma {:induction false} SmearedBound(w: nat, n: nat)
    ensures Smeared(w, n) < Pow2(BitLength(w))
  {
    if n > 0 {
      SmearedBound(w, n - 1);
      ShrBelow(w, n - 1);
      OrBound(Smeared(w, n - 1), Shr(w, n - 1), BitLength(w));
    }
  }

  lemma {:induction false} ShrBelow(w: nat, k: nat)
    ensures Shr(w, k) <= w
  {
    if k > 0 {
      ShrBelow(w / 2, k - 1);
    }
  }

  /** Some bit of `w` at a position in `[lo, hi)` is set. */
  predicate AnyBit(w: nat, lo: nat, hi: nat)
    decreases hi
  {
    lo < hi && (Bit(w, hi - 1) || AnyBit(w, lo, hi - 1))
  }

  lemma {:induction false} AnyBitHas(w: nat, lo: nat, hi: nat, j: nat)
    requires lo <= j < hi && Bit(w, j)
    ensures AnyBit(w, lo, hi)
  {
    if j < hi - 1 {
      AnyBitHas(w, lo, hi - 1, j);
    }
  }

  lemma {:induction false} AnyBitSplit(w: nat, lo: nat, mid: nat, hi: nat)
    requires lo <= mid <= hi
    ensures AnyBit(w, lo, hi) == (AnyBit(w, lo, mid) || AnyBit(w, mid, hi))
    decreases hi
  {
    if mid < hi {
      AnyBitSplit(w, lo, mid, hi - 1);
      if mid == hi - 1 {
        assert !AnyBit(w, mid, hi - 1);
      }
    }
  }

  /** Bit `i` of the smeared value is set exactly when some bit of `w` in
      `[i, i + n)` is. */
  lemma {:induction false} BitOfSmeared(w: nat, n: nat, i: nat)
    ensures Bit(Smeared(w, n), i) == AnyBit(w, i, i + n)
  {
    if n == 0 {
      ZeroHasNoBits(i);
    } else {
      BitOfSmeared(w, n - 1, i);
      BitOfOr(Smeared(w, n - 1), Shr(w, n - 1), i);
      BitOfShr(w, n - 1, i);
    }
  }

  /** One `v |= v >> n` step doubles the smeared width. */
  lemma {:induction false} SmearStep(w: nat, n: nat)
    ensures BitOr(Smeared(w, n), Shr(Smeared(w, n), n)) == Smeared(w, 2 * n)
  {
    var s := Smeared(w, n);
    var L := BitLength(w);
    SmearedBound(w, n);
    SmearedBound(w, 2 * n);
    ShrBelow(s, n);
    OrBound(s, Shr(s, n), L);
    forall i | 0 <= i < L
      ensures Bit(BitOr(s, Shr(s, n)), i) == Bit(Smeared(w, 2 * n), i)
    {
      BitOfOr(s, Shr(s, n), i);
      BitOfShr(s, n, i);
      BitOfSmeared(w, n, i);
      BitOfSmeared(w, n, i + n);
      BitOfSmeared(w, 2 * n, i);
      AnyBitSplit(w, i, i + n, i + 2 * n);
    }
    BitExtensionality(BitOr(s, Shr(s, n)), Smeared(w, 2 * n), L);
  }

  /** The statement `v |= v >> k`, which doubles the smeared width `k`. */
  method OrShiftRight(ghost w: nat, v: nat, k: nat) returns (r: nat)
    requires v == Smeared(w, k)
    ensures r == Smeared(w, 2 * k)
  {
    SmearStep(w, k);
    r := BitOr(v, Shr(v, k));
  }

  lemma {:induction false} BitLengthBound(w: nat, n: nat)
    requires w < Pow2(n)
    ensures BitLength(w) <= n
  {
    if w > 0 {
      BitLengthBound(w / 2, n - 1);
    }
  }

  /** Smearing a value narrower than `n` bits across `n` positions sets
      every bit below its top bit. */
  lemma {:induction false} SmearedFull(w: nat, n: nat)
    requires w < Pow2(n)
    ensures Smeared(w, n) == Pow2(BitLength(w)) - 1
  {
    var L := BitLength(w);
    BitLengthBound(w, n);
    SmearedBound(w, n);
    forall i | 0 <= i < L
      ensures Bit(Smeared(w, n), i) == Bit(Pow2(L) - 1, i)
    {
      SmearedFullBit(w, n, i);
    }
    BitExtensionality(Smeared(w, n), Pow2(L) - 1, L);
  }

  lemma {:induction false} SmearedFullBit(w: nat, n: nat, i: nat)
    requires BitLength(w) <= n && i < BitLength(w)
    ensures Bit(Smeared(w, n), i) == Bit(Pow2(BitLength(w)) - 1, i)
  {
    var L := BitLength(w);
    BitOfSmeared(w, n, i);
    BitOfMask(L, i);
    TopBitSet(w);
    AnyBitHas(w, i, i + n, L - 1);
  }

  /** Adding one to a fully smeared `w` gives the least power of two above
      `w`; for `w` below `2^63` the increment does not wrap. */
  lemma {:induction false} SmearedPlusOne(w: nat, n: nat, m: nat, v: nat)
    requires w < Pow2(n) && w < Pow2(m) && m < 64
    requires v == Smeared(w, n)
    ensures (v + 1) % SizeMod == v + 1
    ensures IsLeastPow2AtLeast(v + 1, w + 1)
  {
    SmearedFull(w, n);
    Pow2IsPow2(BitLength(w));
    BitLengthBound(w, m);
    Pow2Below64(BitLength(w));
    WrapSmall(Smeared(w, n) + 1);
  }

  lemma {:induction false} WrapSmall(x: nat)
    requires x < SizeMod
    ensures x % SizeMod == x
  {
  }

  lemma {:induction false} Pow2Sum(a: nat, b: nat)
    ensures Pow2(a + b) == Pow2(a) * Pow2(b)
  {
    if b > 0 {
      Pow2Sum(a, b - 1);
    }
  }

  /** `SizeMod` is 2^64. */
  lemma {:induction false} Pow2Of64(k: nat)
    requires k == 64
    ensures Pow2(k) == SizeMod
  {
    var b := 8;
    Pow2Of8();
    assert Pow2(b) == 0x100;
    Pow2Sum(b, b);
    assert Pow2(2 * b) == 0x1_0000;
    Pow2Sum(2 * b, 2 * b);
    assert Pow2(4 * b) == 0x1_0000_0000;
    Pow2Sum(4 * b, 4 * b);
  }

  lemma {:induction false} Pow2Below64(k: nat)
    requires k < 64
    ensures Pow2(k) < SizeMod
  {
    var top := 63;
    Pow2Of63(top);
    Pow2Mono(k, top);
  }

  lemma {:induction false} SmearedOne(w: nat, n: nat)
    requires n == 1
    ensures Smeared(w, n) == w
  {
  }

  /** The five `v |= v >> k` steps of `next_power_of_two`, k = 1, 2, 4, 8, 16:
      every bit below the highest set bit of `w`, within 32 positions of it,
      becomes set. */
  method SmearLow32(ghost w: nat, v0: nat) returns (v: nat)
    requires v0 == w
    ensures v == Smeared(w, 32)
  {
    SmearedOne(w, 1);
    v := OrShiftRight(w, v0, 1);
    v := OrShiftRight(w, v, 2);
    v := OrShiftRight(w, v, 4);
    v := OrShiftRight(w, v, 8);
    v := OrShiftRight(w, v, 16);
  }

  /** Smearing `n` bit positions below the top bit and adding one gives
      the least power of two at or above `v0`, when `v0` fits in `m`
      bits with `m <= n`. */
  lemma {:induction false} SmearedWithin(v0: nat, n: nat, m: nat, v: nat)
    requires m < 64 && m <= n && 1 <= v0 <= Pow2(m)
    requires v == (Smeared(v0 - 1, n) + 1) % SizeMod
    ensures IsLeastPow2AtLeast(v, v0)
  {
    Pow2Mono(m, n);
    SmearedPlusOne(v0 - 1, n, m, Smeared(v0 - 1, n));
  }

  /** `next_power_of_two` as written: the smearing stops at `v >> 16`, so
      it covers only 32 bit positions of the 64-bit `size_t`, and the final
      increment wraps modulo 2^64. */
  method NextPowerOfTwo(v0: nat) returns (v: nat)
    requires 1 <= v0 < SizeMod
    ensures v == (Smeared(v0 - 1, 32) + 1) % SizeMod
    ensures v0 <= Pow2(32) ==> IsLeastPow2AtLeast(v, v0)
  {
    ghost var w := v0 - 1;
    v := SmearLow32(w, v0 - 1);
    v := (v + 1) % SizeMod;
    ghost var n := 32;
    if v0 <= Pow2(n) {
      SmearedWithin(v0, n, n, v);
    }
  }

  /** The size rounding of `bheap_new` for every `size_t` request: below
      `MinSize` it is `MinSize`, a power of two is kept, anything else goes
      through the as-written `next_power_of_two`. Up to 2^32 the result is
      the least power of two at or above the request. */
  method RoundHeapSize(h: nat) returns (size: nat)
    requires h < SizeMod
    ensures h < MinSize ==> size == MinSize
    ensures MinSize <= h && IsPow2(h) ==> size == h
    ensures MinSize <= h && !IsPow2(h) ==> size == (Smeared(h - 1, 32) + 1) % SizeMod
    ensures MinSize <= h <= Pow2(32) ==> IsLeastPow2AtLeast(size, h)
  {
    size := h;
    if size < MinSize {
      size := MinSize;
    } else if BitAnd(size, size - 1) != 0 {
      ClearLowestBit(size);
      size := NextPowerOfTwo(size);
    } else {
      ClearLowestBit(size);
    }
  }

  lemma {:induction false} BitOfPow2(k: nat, j: nat)
    ensures Bit(Pow2(k), j) == (j == k)
  {
    if k == 0 {
      if j > 0 {
        ZeroHasNoBits(j - 1);
      }
    } else if j > 0 {
      BitOfPow2(k - 1, j - 1);
    }
  }

  lemma {:induction false} AnyBitOfPow2(k: nat, lo: nat, hi: nat)
    ensures AnyBit(Pow2(k), lo, hi) == (lo <= k < hi)
    decreases hi
  {
    if lo < hi {
      BitOfPow2(k, hi - 1);
      AnyBitOfPow2(k, lo, hi - 1);
    }
  }

  /** Smearing `2^k` across only `k` positions never reaches bit 0. */
  lemma {:induction false} SmearOfPow2(k: nat)
    requires k >= 1
    ensures Smeared(Pow2(k), k) % 2 == 0
    ensures 2 <= Smeared(Pow2(k), k) < Pow2(k + 1)
  {
    var s := Smeared(Pow2(k), k);
    BitOfSmeared(Pow2(k), k, 0);
    AnyBitOfPow2(k, 0, k);
    BitOfSmeared(Pow2(k), k, 1);
    AnyBitOfPow2(k, 1, k + 1);
    assert Bit(s / 2, 0);
    SmearedBound(Pow2(k), k);
    BitLengthBound(Pow2(k), k + 1);
    Pow2Mono(BitLength(Pow2(k)), k + 1);
  }

  /** An odd number above one is not a power of two. */
  lemma {:induction false} OddIsNotPow2(x: nat)
    requires x % 2 == 1 && x > 1
    ensures !IsPow2(x)
  {
  }

  /** Incrementing `Smeared(2^k, k)` gives an odd number, not a power of
      two. */
  lemma {:induction false} SmearOfPow2NotPow2(k: nat)
    requires 1 <= k < 63
    ensures !IsPow2((Smeared(Pow2(k), k) + 1) % SizeMod)
  {
    SmearOfPow2(k);
    Pow2Below64(k + 1);
    WrapSmall(Smeared(Pow2(k), k) + 1);
    OddIsNotPow2(Smeared(Pow2(k), k) + 1);
  }

  /** For `v = 2^32 + 1` the as-written smearing (of `v - 1 = 2^32`) leaves
      bit 0 clear, so
      `next_power_of_two` returns the odd number `2^33 - 1`. */
  lemma {:induction false} NextPowerOfTwoMissesAbove32Bits(v0: nat)
    requires v0 == Pow2(32) + 1
    ensures !IsPow2((Smeared(v0 - 1, 32) + 1) % SizeMod)
  {
    var k := 32;
    var w := v0 - 1;
    assert w == Pow2(k);
    SmearOfPow2NotPow2(k);
    assert !IsPow2((Smeared(w, k) + 1) % SizeMod);
  }

  /** `next_power_of_two` with the smearing carried on to `v >> 32`, so that
      it covers all 64 bits of `size_t`. */
  method NextPowerOfTwo64(v0: nat) returns (v: nat)
    requires 1 <= v0 <= MaxSize
    ensures IsLeastPow2AtLeast(v, v0)
  {
    ghost var w := v0 - 1;
    v := SmearLow32(w, v0 - 1);
    v := OrShiftRight(w, v, 32);
    v := (v + 1) % SizeMod;
    ghost var n, m := 64, 63;
    Pow2Of63(m);
    SmearedWithin(v0, n, m, v);
  }

  lemma {:induction false} Pow2Of63(k: nat)
    requires k == 63
    ensures Pow2(k) == MaxSize
  {
    Pow2Of64(k + 1);
  }

  // ---------------------------------------------------------------------
  // Heap order over the slots of the node array

  /** The frequency of the node at address `p`. */
  ghost function Key(mem: seq<Node>, p: nat): nat
    requires p < |mem|
  {
    mem[p].frequency
  }

  /** Slots `1..n` of `s` hold addresses of the arena `mem`. */
  ghost predicate InArena(mem: seq<Node>, s: seq<nat>, n: nat)
  {
    n < |s| && forall k :: 1 <= k <= n ==> s[k] < |mem|
  }

  /** Slot `k` holds no smaller frequency than its parent slot `k / 2`. */
  ghost predicate ParentOk(mem: seq<Node>, s: seq<nat>, k: nat)
  {
    k < |s| && s[k / 2] < |mem| && s[k] < |mem| && Key(mem, s[k / 2]) <= Key(mem, s[k])
  }

  /** No slot in `2..n` holds a smaller frequency than its parent slot. */
  ghost predicate HeapOrdered(mem: seq<Node>, s: seq<nat>, n: nat)
  {
    forall k :: 2 <= k <= n ==> ParentOk(mem, s, k)
  }

  /** The root of an ordered heap holds a minimal frequency. */
  lemma {:induction false} RootIsMin(mem: seq<Node>, s: seq<nat>, n: nat, k: nat)
    requires InArena(mem, s, n) && HeapOrdered(mem, s, n)
    requires 1 <= k <= n
    ensures Key(mem, s[1]) <= Key(mem, s[k])
    decreases k
  {
    if k > 1 {
      assert ParentOk(mem, s, k);
      RootIsMin(mem, s, n, k / 2);
    }
  }

  /** The root slot holds one of the live addresses with the least
      frequency. */
  lemma {:induction false} RootIsLeast(mem: seq<Node>, s: seq<nat>, n: nat)
    requires InArena(mem, s, n) && HeapOrdered(mem, s, n) && n >= 1
    ensures LeastIn(mem, s[1], multiset(s[1..n + 1]))
  {
    assert s[1..n + 1][0] == s[1];
    forall q | q in multiset(s[1..n + 1])
      ensures q < |mem| && Key(mem, s[1]) <= Key(mem, q)
    {
      var j :| 0 <= j < n && s[1..n + 1][j] == q;
      RootIsMin(mem, s, n, j + 1);
    }
  }

  /** Heap order depends only on the frequencies of the addressed nodes. */
  lemma {:induction false} SameKeysOrdered(mem: seq<Node>, mem': seq<Node>, s: seq<nat>, t: seq<nat>, n: nat)
    requires InArena(mem, s, n) && HeapOrdered(mem, s, n)
    requires |mem| <= |mem'|
    requires forall q :: 0 <= q < |mem| ==> mem'[q].frequency == mem[q].frequency
    requires n < |t| && forall k :: 1 <= k <= n ==> t[k] == s[k]
    ensures InArena(mem', t, n) && HeapOrdered(mem', t, n)
  {
    forall k | 2 <= k <= n
      ensures ParentOk(mem', t, k)
    {
      assert ParentOk(mem, s, k);
    }
  }

  /** Exchanging two live slots keeps the multiset of live addresses. */
  lemma {:induction false} SwapKeepsContents(s: seq<nat>, i: nat, j: nat, n: nat)
    requires 1 <= i <= n && 1 <= j <= n && n < |s|
    ensures multiset(s[j := s[i]][i := s[j]][1..n + 1]) == multiset(s[1..n + 1])
  {
    var t := s[1..n + 1];
    assert s[j := s[i]][i := s[j]][1..n + 1] == t[j - 1 := t[i - 1]][i - 1 := t[j - 1]];
  }

  /** Dropping the last slot keeps the others in heap order. */
  lemma {:induction false} DropLast(mem: seq<Node>, s: seq<nat>, n: nat)
    requires InArena(mem, s, n) && HeapOrdered(mem, s, n) && n >= 1
    ensures InArena(mem, s, n - 1) && HeapOrdered(mem, s, n - 1)
  {
  }

  /** A larger copy of the slots keeps the live ones. */
  lemma {:induction false} GrowKeeps(mem: seq<Node>, s: seq<nat>, t: seq<nat>, n: nat)
    requires InArena(mem, s, n) && HeapOrdered(mem, s, n)
    requires |s| <= |t| && forall k :: 0 <= k < |s| ==> t[k] == s[k]
    ensures InArena(mem, t, n) && HeapOrdered(mem, t, n)
    ensures t[..|s|] == s && t[1..n + 1] == s[1..n + 1]
  {
    SameKeysOrdered(mem, mem, s, t, n);
  }

  /** `realloc`: a fresh array of `size` slots whose common prefix with `a`
      holds `a`'s values. */
  method Realloc(a: array<nat>, size: nat) returns (b: array<nat>)
    ensures fresh(b) && b.Length == size
    ensures forall k :: 0 <= k < size && k < a.Length ==> b[k] == a[k]
  {
    b := new nat[size];
    var k := 0;
    while k < size && k < a.Length
      invariant k <= size
      invariant forall t :: 0 <= t < k && t < a.Length ==> b[t] == a[t]
    {
      b[k] := a[k];
      k := k + 1;
    }
  }

  // ---------------------------------------------------------------------
  // Sifting up: the loop invariant of `bheap_insert`

  /** While `p` sits in slot `i`: every slot but `i` is in order with its
      parent, `i`'s parent is in order with `i`'s children, and each slot
      whose address differs from `orig` (other than `p`'s) holds a node with a
      greater frequency than `p`. */
  ghost predicate UpInv(mem: seq<Node>, s: seq<nat>, n: nat, i: nat, p: nat, orig: seq<nat>)
  {
    InArena(mem, s, n) && 1 <= i <= n && s[i] == p && |orig| == |s| &&
    multiset(s[1..n + 1]) == multiset(orig[1..n + 1]) &&
    (forall k :: 2 <= k <= n && k != i ==> ParentOk(mem, s, k)) &&
    (i > 1 ==> forall k :: 2 <= k <= n && k / 2 == i ==> Key(mem, s[i / 2]) <= Key(mem, s[k])) &&
    (forall k :: 1 <= k <= n && s[k] != p && s[k] != orig[k] ==> Key(mem, s[k]) > Key(mem, p))
  }

  lemma {:induction false} UpStart(mem: seq<Node>, s: seq<nat>, n: nat, p: nat)
    requires InArena(mem, s, n) && n >= 1 && s[n] == p
    requires HeapOrdered(mem, s, n - 1)
    ensures UpInv(mem, s, n, n, p, s)
  {
  }

  /** Swapping `p` with a parent of strictly greater frequency. */
  lemma {:induction false} UpStep(mem: seq<Node>, s: seq<nat>, n: nat, i: nat, p: nat, orig: seq<nat>)
    requires UpInv(mem, s, n, i, p, orig) && i > 1
    requires Key(mem, s[i]) < Key(mem, s[i / 2])
    ensures UpInv(mem, s[i / 2 := s[i]][i := s[i / 2]], n, i / 2, p, orig)
  {
    var j := i / 2;
    var s' := s[j := s[i]][i := s[j]];
    UpStepOrder(mem, s, s', n, i);
    SwapKeepsContents(s, i, j, n);
    UpStepDisplaced(mem, s, s', n, i, p, orig);
  }

  lemma {:induction false} UpStepDisplaced(mem: seq<Node>, s: seq<nat>, s': seq<nat>, n: nat, i: nat, p: nat, orig: seq<nat>)
    requires UpInv(mem, s, n, i, p, orig) && i > 1
    requires Key(mem, s[i]) < Key(mem, s[i / 2])
    requires s' == s[i / 2 := s[i]][i := s[i / 2]]
    ensures forall k :: 1 <= k <= n && s'[k] != p && s'[k] != orig[k] ==> Key(mem, s'[k]) > Key(mem, p)
  {
    forall k | 1 <= k <= n && s'[k] != p && s'[k] != orig[k]
      ensures Key(mem, s'[k]) > Key(mem, p)
    {
      if k != i {
        assert s'[k] == s[k];
      }
    }
  }

  lemma {:induction false} UpStepOrder(mem: seq<Node>, s: seq<nat>, s': seq<nat>, n: nat, i: nat)
    requires InArena(mem, s, n) && 1 < i <= n
    requires forall k :: 2 <= k <= n && k != i ==> ParentOk(mem, s, k)
    requires forall k :: 2 <= k <= n && k / 2 == i ==> Key(mem, s[i / 2]) <= Key(mem, s[k])
    requires Key(mem, s[i]) < Key(mem, s[i / 2])
    requires s' == s[i / 2 := s[i]][i := s[i / 2]]
    ensures InArena(mem, s', n)
    ensures forall k :: 2 <= k <= n && k != i / 2 ==> ParentOk(mem, s', k)
    ensures i / 2 > 1 ==> forall k :: 2 <= k <= n && k / 2 == i / 2 ==> Key(mem, s'[i / 2 / 2]) <= Key(mem, s'[k])
  {
    var j := i / 2;
    forall k | 2 <= k <= n && k != j
      ensures ParentOk(mem, s', k)
    {
      if k == i {
      } else if k / 2 == i {
      } else {
        assert ParentOk(mem, s, k);
      }
    }
    if j > 1 {
      forall k | 2 <= k <= n && k / 2 == j
        ensures Key(mem, s'[j / 2]) <= Key(mem, s'[k])
      {
        assert ParentOk(mem, s, j);
        if k != i {
          assert ParentOk(mem, s, k);
        }
      }
    }
  }

  /** When `p` stops, the slots are in heap order. */
  lemma {:induction false} UpDone(mem: seq<Node>, s: seq<nat>, n: nat, i: nat, p: nat, orig: seq<nat>)
    requires UpInv(mem, s, n, i, p, orig)
    requires i == 1 || Key(mem, s[i / 2]) <= Key(mem, s[i])
    ensures SiftedUp(mem, s, n, p, orig)
  {
  }

  /** After the sift-up from `orig` to `s`: the slots are in heap order and
      hold the same addresses, and each slot whose address changed (other
      than to `p`) holds a node with a greater frequency than `p`. */
  ghost predicate SiftedUp(mem: seq<Node>, s: seq<nat>, n: nat, p: nat, orig: seq<nat>)
  {
    InArena(mem, s, n) && HeapOrdered(mem, s, n) && |orig| == |s| && p < |mem| &&
    multiset(s[1..n + 1]) == multiset(orig[1..n + 1]) &&
    (forall k :: 1 <= k <= n && s[k] != p && s[k] != orig[k] ==> Key(mem, s[k]) > Key(mem, p))
  }

  // ---------------------------------------------------------------------
  // Sift-down (bheap_pop)

  /** Moving the last address `s[n]` into the root of a heap of at least
      two nodes: only the pairs below the root may be out of order, and
      slots `1..n-1` hold the heap's addresses less the old root. Slot `n`
      keeps its stale copy of the moved address until the count drops. */
  lemma {:induction false} PopStart(mem: seq<Node>, s: seq<nat>, t: seq<nat>, n: nat)
    requires InArena(mem, s, n) && HeapOrdered(mem, s, n) && n >= 2
    requires n < |t| && t[1] == s[n] && forall k :: 2 <= k <= n ==> t[k] == s[k]
    ensures InArena(mem, t, n) && t[1] == t[n]
    ensures forall k :: 4 <= k <= n ==> ParentOk(mem, t, k)
    ensures multiset(t[1..n]) == multiset(s[1..n + 1]) - multiset{s[1]}
  {
    forall k | 4 <= k <= n
      ensures ParentOk(mem, t, k)
    {
      assert ParentOk(mem, s, k);
    }
    assert s[1..n + 1] == [s[1]] + s[2..n] + [s[n]];
    assert t[1..n] == [s[n]] + s[2..n];
  }

  /** Cutting the array down to a prefix that still holds slot `n` keeps
      what `PopStart` established. */
  lemma {:induction false} KeptSlots(mem: seq<Node>, s: seq<nat>, t: seq<nat>, n: nat)
    requires InArena(mem, s, n) && n >= 2 && s[1] == s[n]
    requires forall k :: 4 <= k <= n ==> ParentOk(mem, s, k)
    requires n < |t| <= |s| && t == s[..|t|]
    ensures InArena(mem, t, n) && t[1] == t[n]
    ensures forall k :: 4 <= k <= n ==> ParentOk(mem, t, k)
    ensures t[1..n] == s[1..n]
  {
    assert forall k :: 0 <= k < |t| ==> t[k] == s[k];
    forall k | 4 <= k <= n
      ensures ParentOk(mem, t, k)
    {
      assert ParentOk(mem, s, k);
    }
  }

  /** The sift-down invariant: the moved address `p` sits in slot `i` and
      in the stale slot `n`; every pair is ordered except `i` with its
      children, and `i`'s parent is no greater than `i`'s children. */
  ghost predicate DownInv(mem: seq<Node>, s: seq<nat>, n: nat, i: nat, p: nat, orig: seq<nat>)
  {
    InArena(mem, s, n) && 1 <= i < n && s[i] == p && s[n] == p && |orig| == |s| &&
    multiset(s[1..n]) == multiset(orig[1..n]) &&
    (forall k :: 2 <= k <= n && k / 2 != i ==> ParentOk(mem, s, k)) &&
    (i > 1 ==> forall k :: 2 <= k <= n && k / 2 == i ==> Key(mem, s[i / 2]) <= Key(mem, s[k]))
  }

  lemma {:induction false} DownStart(mem: seq<Node>, s: seq<nat>, n: nat)
    requires InArena(mem, s, n) && n >= 2 && s[1] == s[n]
    requires forall k :: 4 <= k <= n ==> ParentOk(mem, s, k)
    ensures DownInv(mem, s, n, 1, s[1], s)
  {
  }

  /** Exchanging `p` in slot `i` with its child `c`, whose frequency is
      strictly smaller than `p`'s and no greater than its sibling's. */
  lemma {:induction false} DownStep(mem: seq<Node>, s: seq<nat>, n: nat, i: nat, c: nat, p: nat, orig: seq<nat>)
    requires DownInv(mem, s, n, i, p, orig)
    requires 2 <= c <= n && c / 2 == i
    requires Key(mem, s[c]) < Key(mem, s[i])
    requires forall k :: 2 <= k <= n && k / 2 == i ==> Key(mem, s[c]) <= Key(mem, s[k])
    ensures DownInv(mem, s[i := s[c]][c := s[i]], n, c, p, orig)
  {
    var s' := s[i := s[c]][c := s[i]];
    DownStepOrder(mem, s, s', n, i, c);
    DownStepContents(s, s', n, i, c);
  }

  lemma {:induction false} DownStepContents(s: seq<nat>, s': seq<nat>, n: nat, i: nat, c: nat)
    requires 1 <= i < c < n < |s| && s' == s[i := s[c]][c := s[i]]
    ensures multiset(s'[1..n]) == multiset(s[1..n])
    ensures s'[c] == s[i] && s'[n] == s[n] && |s'| == |s|
  {
    SwapKeepsContents(s, c, i, n - 1);
  }

  lemma {:induction false} DownStepOrder(mem: seq<Node>, s: seq<nat>, s': seq<nat>, n: nat, i: nat, c: nat)
    requires InArena(mem, s, n) && 1 <= i && 2 <= c <= n && c / 2 == i
    requires forall k :: 2 <= k <= n && k / 2 != i ==> ParentOk(mem, s, k)
    requires i > 1 ==> forall k :: 2 <= k <= n && k / 2 == i ==> Key(mem, s[i / 2]) <= Key(mem, s[k])
    requires Key(mem, s[c]) < Key(mem, s[i])
    requires forall k :: 2 <= k <= n && k / 2 == i ==> Key(mem, s[c]) <= Key(mem, s[k])
    requires s' == s[i := s[c]][c := s[i]]
    ensures InArena(mem, s', n)
    ensures forall k :: 2 <= k <= n && k / 2 != c ==> ParentOk(mem, s', k)
    ensures forall k :: 2 <= k <= n && k / 2 == c ==> Key(mem, s'[c / 2]) <= Key(mem, s'[k])
  {
    forall k | 2 <= k <= n && k / 2 != c
      ensures ParentOk(mem, s', k)
    {
      if k == c || k / 2 == i {
      } else if k == i {
        assert Key(mem, s[i / 2]) <= Key(mem, s[c]);
      } else {
        assert ParentOk(mem, s, k);
      }
    }
    forall k | 2 <= k <= n && k / 2 == c
      ensures Key(mem, s'[c / 2]) <= Key(mem, s'[k])
    {
      assert ParentOk(mem, s, k);
    }
  }

  /** When no child of `p`'s slot is strictly smaller, all slots up to the
      stale one are in heap order. */
  lemma {:induction false} DownDone(mem: seq<Node>, s: seq<nat>, n: nat, i: nat, p: nat, orig: seq<nat>)
    requires DownInv(mem, s, n, i, p, orig)
    requires forall k :: 2 <= k <= n && k / 2 == i ==> Key(mem, s[i]) <= Key(mem, s[k])
    ensures InArena(mem, s, n) && HeapOrdered(mem, s, n) && s[n] == p
    ensures multiset(s[1..n]) == multiset(orig[1..n])
  {
  }

  /** `r` is an address of `ms`, in `mem`, whose frequency is minimal
      among `ms`. */
  ghost predicate LeastIn(mem: seq<Node>, r: nat, ms: multiset<nat>)
  {
    r in ms && r < |mem| && forall q | q in ms :: q < |mem| && Key(mem, r) <= Key(mem, q)
  }

  // ---------------------------------------------------------------------
  // The heap

  /** A `bheap`: slot 0 of `nodes` is unused, slots `1..numNodes` hold the
      addresses of the nodes in heap order, and `heapSize` is the
      allocated length of `nodes`. */
  class Heap {
    var heapSize: nat
    var numNodes: nat
    var nodes: array<nat>

    /** The shape the allocation code keeps: a power-of-two array of at
        least `MinSize` slots with room for one more node. */
    ghost predicate Valid()
      reads this
    {
      nodes.Length == heapSize && MinSize <= heapSize && IsPow2(heapSize) &&
      numNodes < heapSize
    }

    /** The live slots address nodes of `mem` and are in heap order. */
    ghost predicate Ordered(mem: seq<Node>)
      reads this, nodes
    {
      Valid() && InArena(mem, nodes[..], numNodes) && HeapOrdered(mem, nodes[..], numNodes)
    }

    /** The addresses held in the live slots. */
    ghost function Contents(): multiset<nat>
      reads this, nodes
      requires Valid()
    {
      multiset(nodes[1..numNodes + 1])
    }

    /** `bheap_new`: sizes below `MinSize` become `MinSize`, other sizes
        that are not powers of two go through `next_power_of_two`. Requests
        above 2^32 are out of reach: there the as-written rounding need not
        give a power of two (see `NextPowerOfTwoMissesAbove32Bits`). */
    constructor(h: nat)
      requires h <= Pow2(32)
      ensures Valid() && numNodes == 0 && fresh(nodes)
      ensures h < MinSize ==> heapSize == MinSize
      ensures h >= MinSize ==> IsLeastPow2AtLeast(heapSize, h)
    {
      Pow2Below64(32);
      var size := RoundHeapSize(h);
      heapSize := size;
      numNodes := 0;
      nodes := new nat[size];
    }

    /** The sift-up loop of `bheap_insert`: the address `p` in the last
        live slot moves towards the root while its parent's frequency is
        strictly greater. Only nodes with a frequency greater than `p`'s are
        moved out of their slots. */
    method SiftUp(mem: seq<Node>, p: nat)
      requires Valid() && InArena(mem, nodes[..], numNodes)
      requires numNodes >= 1 && nodes[numNodes] == p
      requires HeapOrdered(mem, nodes[..], numNodes - 1)
      modifies nodes
      ensures SiftedUp(mem, nodes[..], numNodes, p, old(nodes[..]))
    {
      ghost var orig := nodes[..];
      var i: nat := numNodes;
      UpStart(mem, orig, numNodes, p);
      while i > 1
        invariant UpInv(mem, nodes[..], numNodes, i, p, orig)
        decreases i
      {
        var j: nat := i / 2;
        var cur := nodes[i];
        var par := nodes[j];
        if mem[cur].frequency >= mem[par].frequency {
          break;
        }
        UpStep(mem, nodes[..], numNodes, i, p, orig);
        Swap(j, i);
        i := j;
      }
      UpDone(mem, nodes[..], numNodes, i, p, orig);
    }

    /** The store of a new address into the slot after the last live one,
        before the sift-up: the slots already live stay in heap order for
        any arena that keeps the frequencies of `mem`. */
    method Push(ghost mem: seq<Node>, ghost mem': seq<Node>, p: nat)
      requires Valid() && numNodes < heapSize - 1
      requires InArena(mem, nodes[..], numNodes) && HeapOrdered(mem, nodes[..], numNodes)
      requires |mem| <= |mem'| && p < |mem'|
      requires forall q :: 0 <= q < |mem| ==> mem'[q].frequency == mem[q].frequency
      modifies this, nodes
      ensures Valid() && nodes == old(nodes) && heapSize == old(heapSize)
      ensures numNodes == old(numNodes) + 1 && nodes[..] == old(nodes[..])[numNodes := p]
      ensures InArena(mem', nodes[..], numNodes) && HeapOrdered(mem', nodes[..], numNodes - 1)
      ensures multiset(nodes[1..numNodes + 1]) == old(multiset(nodes[1..numNodes + 1])) + multiset{p}
    {
      numNodes := numNodes + 1;
      nodes[numNodes] := p;
      assert nodes[1..numNodes] == old(nodes[1..numNodes + 1]);
      assert nodes[1..numNodes + 1] == nodes[1..numNodes] + [p];
      SameKeysOrdered(mem, mem', old(nodes[..]), nodes[..], numNodes - 1);
    }

    /** The reallocation of `bheap_insert` when the array is full: the
        array doubles and the slots it held keep their addresses. */
    method Grow(ghost mem: seq<Node>)
      requires Ordered(mem) && numNodes == heapSize - 1
      modifies this
      ensures Ordered(mem) && fresh(nodes)
      ensures heapSize == 2 * old(heapSize) && numNodes == old(numNodes)
      ensures nodes[..old(heapSize)] == old(nodes[..])
      ensures Contents() == old(Contents())
    {
      ghost var s := nodes[..];
      var newSize := 2 * heapSize;
      assert IsPow2(newSize) by {
        assert newSize / 2 == heapSize;
      }
      var newNodes := Realloc(nodes, newSize);
      GrowKeeps(mem, s, newNodes[..], numNodes);
      heapSize := newSize;
      nodes := newNodes;
    }

    /** `bheap_insert`: doubles the array when it is full, copies `node`
        into a new arena cell `p`, stores `p` in the next slot and sifts it
        up past every parent with a strictly greater frequency. A slot
        whose content changed, other than `p`'s, holds a node with a
        greater frequency than `node`: equal frequencies are never passed. */
    method Insert(mem: seq<Node>, node: Node) returns (mem': seq<Node>, p: nat)
      requires Ordered(mem)
      modifies this, nodes
      ensures Ordered(mem') && (nodes == old(nodes) || fresh(nodes))
      ensures mem' == mem + [node] && p == |mem|
      ensures numNodes == old(numNodes) + 1
      ensures Contents() == old(Contents()) + multiset{p}
      ensures heapSize == if old(numNodes) == old(heapSize) - 1 then 2 * old(heapSize) else old(heapSize)
      ensures forall k :: 1 <= k <= numNodes && nodes[k] != p && (k == numNodes || nodes[k] != old(nodes[k])) ==>
                Key(mem', nodes[k]) > node.frequency
    {
      if numNodes == heapSize - 1 {
        Grow(mem);
      }
      mem' := mem + [node];
      p := |mem|;
      ghost var kept := nodes[..];
      assert forall k :: 1 <= k < numNodes + 1 ==> kept[k] == old(nodes[k]);
      AddLast(mem, mem', p);
    }

    /** The part of `bheap_insert` after any reallocation: `p` goes into
        the slot after the last live one and is sifted up. */
    method AddLast(ghost mem: seq<Node>, mem': seq<Node>, p: nat)
      requires Ordered(mem) && numNodes < heapSize - 1
      requires |mem| <= |mem'| && p < |mem'|
      requires forall q :: 0 <= q < |mem| ==> mem'[q].frequency == mem[q].frequency
      modifies this, nodes
      ensures Ordered(mem') && nodes == old(nodes) && heapSize == old(heapSize)
      ensures numNodes == old(numNodes) + 1
      ensures Contents() == old(Contents()) + multiset{p}
      ensures forall k :: 1 <= k <= numNodes && nodes[k] != p && (k == numNodes || nodes[k] != old(nodes[k])) ==>
                Key(mem', nodes[k]) > Key(mem', p)
    {
      Push(mem, mem', p);
      ghost var placed := nodes[..];
      SiftUp(mem', p);
      assert forall k :: 1 <= k < numNodes ==> placed[k] == old(nodes[k]);
    }

    /** `bheap_pop`: an empty heap yields NULL; a single node is returned
        as is; otherwise the root is returned, the last address moves to
        the root, the array halves when the heap is a quarter full, and the
        moved address sinks to its place. */
    method Pop(mem: seq<Node>) returns (r: Option<nat>)
      requires Ordered(mem)
      modifies this, nodes
      ensures Ordered(mem) && (nodes == old(nodes) || fresh(nodes))
      ensures old(numNodes) == 0 ==> r == None && numNodes == 0
      ensures old(numNodes) >= 1 ==> r == Some(old(nodes[1])) && numNodes == old(numNodes) - 1
      ensures old(numNodes) >= 1 ==> Contents() == old(Contents()) - multiset{r.value}
      ensures old(numNodes) >= 1 ==> LeastIn(mem, r.value, old(Contents()))
      ensures heapSize == if 2 <= old(numNodes) && MinSize < old(heapSize) && old(numNodes) == old(heapSize) / 4
                          then old(heapSize) / 2 else old(heapSize)
    {
      if numNodes == 1 {
        RootIsLeast(mem, nodes[..], 1);
        assert nodes[1..2] == [nodes[1]];
        numNodes := numNodes - 1;
        return Some(nodes[1]);
      } else if numNodes < 1 {
        return None;
      }
      var min := PopRoot(mem);
      return Some(min);
    }

    /** `bheap_pop` on a heap of at least two nodes, after the early
        returns. */
    method PopRoot(mem: seq<Node>) returns (min: nat)
      requires Ordered(mem) && numNodes >= 2
      modifies this, nodes
      ensures Ordered(mem) && (nodes == old(nodes) || fresh(nodes))
      ensures min == old(nodes[1]) && numNodes == old(numNodes) - 1
      ensures Contents() == old(Contents()) - multiset{min}
      ensures LeastIn(mem, min, old(Contents()))
      ensures heapSize == if MinSize < old(heapSize) && old(numNodes) == old(heapSize) / 4
                          then old(heapSize) / 2 else old(heapSize)
    {
      min := DetachRoot(mem);
      ghost var rest := multiset(nodes[1..numNodes]);
      SiftDown(mem);
      ghost var u := nodes[..];
      assert multiset(u[1..numNodes]) == rest;
      DropLast(mem, u, numNodes);
      numNodes := numNodes - 1;
    }

    /** The first half of `bheap_pop` on at least two nodes: the root is
        taken out, the last address is copied into the root, and the array
        halves when the heap is a quarter full. Slots `1..numNodes - 1` then
        hold the heap's addresses less the root. */
    method DetachRoot(mem: seq<Node>) returns (min: nat)
      requires Ordered(mem) && numNodes >= 2
      modifies this, nodes
      ensures Valid() && numNodes == old(numNodes) && min == old(nodes[1])
      ensures nodes == old(nodes) || fresh(nodes)
      ensures InArena(mem, nodes[..], numNodes) && nodes[1] == nodes[numNodes]
      ensures forall k :: 4 <= k <= numNodes ==> ParentOk(mem, nodes[..], k)
      ensures multiset(nodes[1..numNodes]) == old(Contents()) - multiset{min}
      ensures LeastIn(mem, min, old(Contents()))
      ensures heapSize == if MinSize < old(heapSize) && old(numNodes) == old(heapSize) / 4
                          then old(heapSize) / 2 else old(heapSize)
    {
      ghost var s0 := nodes[..];
      assert old(Contents()) == multiset(s0[1..numNodes + 1]);
      RootIsLeast(mem, s0, numNodes);
      min := nodes[1];
      var last := nodes[numNodes];
      nodes[1] := last;
      ghost var s1 := nodes[..];
      PopStart(mem, s0, s1, numNodes);
      if MinSize < heapSize && numNodes == heapSize / 4 {
        Shrink();
        KeptSlots(mem, s1, nodes[..], numNodes);
      }
    }

    /** The reallocation of `bheap_pop` when the heap is a quarter full:
        the array halves and keeps the slots that still fit. */
    method Shrink()
      requires Valid() && MinSize < heapSize && numNodes == heapSize / 4
      modifies this
      ensures Valid() && fresh(nodes)
      ensures heapSize == old(heapSize) / 2 && numNodes == old(numNodes)
      ensures nodes[..] == old(nodes[..heapSize / 2])
    {
      Pow2Gap(heapSize, MinSize);
      var newSize := heapSize / 2;
      var newNodes := Realloc(nodes, newSize);
      heapSize := newSize;
      nodes := newNodes;
    }

    /** The sift-down loop of `bheap_pop`, run while `numNodes` still
        counts the stale last slot: the address in the root moves down
        past every child with a strictly smaller frequency, taking the
        smaller child and the left one on a tie. */
    method SiftDown(mem: seq<Node>)
      requires Valid() && InArena(mem, nodes[..], numNodes) && numNodes >= 2
      requires nodes[1] == nodes[numNodes]
      requires forall k :: 4 <= k <= numNodes ==> ParentOk(mem, nodes[..], k)
      modifies nodes
      ensures InArena(mem, nodes[..], numNodes) && HeapOrdered(mem, nodes[..], numNodes)
      ensures nodes[numNodes] == old(nodes[numNodes])
      ensures multiset(nodes[1..numNodes]) == old(multiset(nodes[1..numNodes]))
    {
      ghost var p := nodes[1];
      ghost var orig := nodes[..];
      assert multiset(nodes[1..numNodes]) == multiset(orig[1..numNodes]);
      var i: nat := 1;
      DownStart(mem, orig, numNodes);
      while true
        invariant DownInv(mem, nodes[..], numNodes, i, p, orig)
        decreases numNodes - i
      {
        var cur := nodes[i];
        var si, smallest := SmallestChild(mem, i);
        if smallest == cur {
          DownDone(mem, nodes[..], numNodes, i, p, orig);
          assert nodes[1..numNodes] == nodes[..][1..numNodes];
          break;
        }
        DownStep(mem, nodes[..], numNodes, i, si, p, orig);
        Swap(i, si);
        i := si;
      }
    }

    /** The exchange of two slots through temporaries, as both sift loops
        do it. */
    method Swap(i: nat, j: nat)
      requires i < nodes.Length && j < nodes.Length
      modifies nodes
      ensures nodes[..] == old(nodes[..])[i := old(nodes[j])][j := old(nodes[i])]
    {
      var a, b := nodes[i], nodes[j];
      nodes[j] := a;
      nodes[i] := b;
    }

    /** The child comparison of `bheap_pop`'s sift-down: `smallest` is the
        address of the child of slot `i` with the least frequency when that
        frequency is strictly below slot `i`'s (the right child only when
        strictly below the left one too), and slot `i`'s own address
        otherwise. Children are looked for up to `numNodes`. */
    method SmallestChild(mem: seq<Node>, i: nat) returns (si: nat, smallest: nat)
      requires Valid() && InArena(mem, nodes[..], numNodes) && 1 <= i <= numNodes
      ensures (smallest == nodes[i]) == (si == i)
      ensures si == i ==> forall k :: 2 <= k <= numNodes && k / 2 == i ==> Key(mem, nodes[i]) <= Key(mem, nodes[k])
      ensures si != i ==> 2 <= si <= numNodes && si / 2 == i && smallest == nodes[si]
      ensures si != i ==> Key(mem, smallest) < Key(mem, nodes[i])
      ensures si != i ==> forall k :: 2 <= k <= numNodes && k / 2 == i ==> Key(mem, smallest) <= Key(mem, nodes[k])
      ensures si == 2 * i + 1 ==> Key(mem, smallest) < Key(mem, nodes[2 * i])
    {
      var li := 2 * i;
      var ri := 2 * i + 1;
      si := i;
      var cur := nodes[i];
      smallest := cur;
      if li <= numNodes {
        var left := nodes[li];
        if mem[left].frequency < mem[smallest].frequency {
          si := li;
          smallest := left;
        }
      }
      if ri <= numNodes {
        var right := nodes[ri];
        if mem[right].frequency < mem[smallest].frequency {
          si := ri;
          smallest := right;
        }
      }
    }
  }
}
