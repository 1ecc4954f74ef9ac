/** The output side shared by `write_tree` and `encode`: both fill a
    caller's buffer one byte at a time from a bit accumulator
    (`buf[len++] = byte; byte = 0; bits = 8;`), and end by writing a
    partly filled last byte. */
module Sink {
  import opened Bits

  /** The buffer holds `out` at `start` and is otherwise as it was
      (`orig`). */
  ghost predicate Holds(buf: seq<byte>, orig: seq<byte>, start: nat, out: seq<byte>)
  {
    |buf| == |orig| && start + |out| <= |buf| &&
    buf[start..start + |out|] == out &&
    buf[..start] == orig[..start] && buf[start + |out|..] == orig[start + |out|..]
  }

  /** Nothing has been written yet. */
  lemma {:induction false} HoldsNothing(buf: seq<byte>, start: nat)
    requires start <= |buf|
    ensures Holds(buf, buf, start, [])
  {
  }

  /** A full accumulator byte is stored at the end of what was written. The
      stream ends within `limit` bits, for which the caller provides room. */
  method Flush(buf: array<byte>, start: nat, len: nat, pending: nat,
               ghost out: seq<byte>, ghost emitted: seq<bool>, ghost orig: seq<byte>, ghost limit: nat)
      returns (len': nat, ghost out': seq<byte>)
    requires Holds(buf[..], orig, start, out) && len == |out|
    requires Writer(out, pending, 0, emitted)
    requires |emitted| <= limit && start + (limit + 7) / 8 <= buf.Length
    modifies buf
    ensures len' == |out'| == len + 1
    ensures Holds(buf[..], orig, start, out')
    ensures Writer(out', 0, 8, emitted)
  {
    WriterFlush(out, pending, emitted);
    buf[start + len] := pending;
    len' := len + 1;
    out' := out + [pending];
    assert buf[start..start + len'] == old(buf[start..start + len]) + [pending];
    assert buf[..start] == old(buf[..start]);
    assert buf[start + len'..] == old(buf[start + len'..]);
  }

  /** `if (bits == 0) { buf[len++] = byte; byte = 0; bits = 8; }`: after
      it the accumulator has room for at least one more bit. */
  method FlushIfFull(buf: array<byte>, start: nat, len: nat, pending: nat, free: nat,
                     ghost out: seq<byte>, ghost emitted: seq<bool>, ghost orig: seq<byte>, ghost limit: nat)
      returns (len': nat, pending': nat, free': nat, ghost out': seq<byte>)
    requires Holds(buf[..], orig, start, out) && len == |out|
    requires Writer(out, pending, free, emitted) && free <= 8
    requires |emitted| <= limit && start + (limit + 7) / 8 <= buf.Length
    modifies buf
    ensures Holds(buf[..], orig, start, out') && len' == |out'|
    ensures Writer(out', pending', free', emitted) && free' == if free == 0 then 8 else free
  {
    len', pending', free', out' := len, pending, free, out;
    if free == 0 {
      len', out' := Flush(buf, start, len, pending, out, emitted, orig, limit);
      pending' := 0;
      free' := 8;
    }
  }

  /** `if (bits != 8) buf[len++] = byte;`: what has been written is then
      the emitted bits packed, the last byte padded with zeros. */
  method FlushLast(buf: array<byte>, start: nat, len: nat, pending: nat, free: nat,
                   ghost out: seq<byte>, ghost emitted: seq<bool>, ghost orig: seq<byte>)
      returns (len': nat)
    requires Holds(buf[..], orig, start, out) && len == |out|
    requires Writer(out, pending, free, emitted) && free >= 1
    requires start + |Pack(emitted)| <= buf.Length
    modifies buf
    ensures len' == |Pack(emitted)|
    ensures Holds(buf[..], orig, start, Pack(emitted))
  {
    WriterFinish(out, pending, free, emitted);
    len' := len;
    if free != 8 {
      buf[start + len] := pending;
      len' := len + 1;
      assert buf[start..start + len'] == old(buf[start..start + len]) + [pending];
      assert buf[..start] == old(buf[..start]);
      assert buf[start + len'..] == old(buf[start + len'..]);
    }
  }
}
