/**
  The mapped view of a shared-memory segment and the bounded reads made from it
  (MmfAccessorExtensions.ReadStruct). Structs are packed (Pack = 1), so a field of a
  struct read at `pos` lies at `pos + fieldOffset`, and every 32-bit field is little-endian.
 */
module SharedMemory {
  import opened Wrappers

  type byte = b: int | 0 <= b < 0x100
  type uint32 = n: int | 0 <= n < 0x1_0000_0000
  type int32 = n: int | -0x8000_0000 <= n < 0x8000_0000

  /** A read of a `size`-byte struct at `pos`: the accessor refuses it when it would run
      past the end of the view (the exception that the decoders catch). */
  function ReadStruct(view: seq<byte>, pos: int, size: nat): (r: Option<seq<byte>>)
    ensures r.Some? <==> 0 <= pos && pos + size <= |view|
    ensures r.Some? ==> |r.value| == size && forall i :: 0 <= i < size ==> r.value[i] == view[pos + i]
  {
    if 0 <= pos && pos + size <= |view| then Some(view[pos..pos + size]) else None
  }

  /** The little-endian 32-bit field at `off`. */
  function U32At(b: seq<byte>, off: nat): (n: uint32)
    requires off + 4 <= |b|
  {
    b[off] as int + 0x100 * (b[off + 1] as int) + 0x1_0000 * (b[off + 2] as int) + 0x100_0000 * (b[off + 3] as int)
  }

  /** The four bytes a producer writes for a 32-bit field. */
  function U32Bytes(n: uint32): (b: seq<byte>)
    ensures |b| == 4
  {
    [n % 0x100, (n / 0x100) % 0x100, (n / 0x1_0000) % 0x100, n / 0x100_0000]
  }

  lemma U32RoundTrip(n: uint32)
    ensures U32At(U32Bytes(n), 0) == n
  {
    var b := U32Bytes(n);
    var q1 := n / 0x100;
    var q2 := q1 / 0x100;
    assert n / 0x1_0000 == q2;
    assert n / 0x100_0000 == q2 / 0x100;
    assert n == b[0] + 0x100 * q1;
    assert q1 == b[1] + 0x100 * q2;
    assert q2 == b[2] as int + 0x100 * (b[3] as int);
  }

  lemma U32BytesRoundTrip(b: seq<byte>, off: nat)
    requires off + 4 <= |b|
    ensures U32Bytes(U32At(b, off)) == b[off..off + 4]
  {
    var n := U32At(b, off);
    assert n % 0x100 == b[off];
    assert n / 0x100 == b[off + 1] as int + 0x100 * (b[off + 2] as int) + 0x1_0000 * (b[off + 3] as int);
    assert n / 0x1_0000 == b[off + 2] as int + 0x100 * (b[off + 3] as int);
    assert n / 0x100_0000 == b[off + 3];
  }

  /** A field written at `|prefix|` reads back, whatever surrounds it. */
  lemma U32AtFramed(prefix: seq<byte>, n: uint32, suffix: seq<byte>)
    ensures U32At(prefix + U32Bytes(n) + suffix, |prefix|) == n
  {
    var b := prefix + U32Bytes(n) + suffix;
    assert b[|prefix|..|prefix| + 4] == U32Bytes(n);
    U32RoundTrip(n);
  }

  /** Consecutive packed 32-bit fields. */
  function PackU32s(fields: seq<uint32>): (b: seq<byte>)
    ensures |b| == 4 * |fields|
  {
    if |fields| == 0 then [] else U32Bytes(fields[0]) + PackU32s(fields[1..])
  }

  /** Field `k` of a packed run reads back at offset `4 * k`. */
  lemma {:induction false} PackedFieldAt(fields: seq<uint32>, k: nat)
    requires k < |fields|
    ensures U32At(PackU32s(fields), 4 * k) == fields[k]
  {
    var b := PackU32s(fields);
    if k == 0 {
      assert b[..4] == U32Bytes(fields[0]);
      U32RoundTrip(fields[0]);
    } else {
      PackedFieldAt(fields[1..], k - 1);
      var rest := PackU32s(fields[1..]);
      assert b == U32Bytes(fields[0]) + rest;
      U32AtShift(U32Bytes(fields[0]), rest, 4 * (k - 1));
    }
  }

  /** A field read past a prefix is the field of what follows the prefix. */
  lemma U32AtShift(prefix: seq<byte>, b: seq<byte>, off: nat)
    requires off + 4 <= |b|
    ensures U32At(prefix + b, |prefix| + off) == U32At(b, off)
  {
    var c := prefix + b;
    assert c[|prefix| + off] == b[off] && c[|prefix| + off + 1] == b[off + 1];
    assert c[|prefix| + off + 2] == b[off + 2] && c[|prefix| + off + 3] == b[off + 3];
  }

  /** Two's-complement reinterpretation of a 32-bit field (a C# `(int)` cast of a `uint`,
      or an `int` field). */
  function Int32Of(n: uint32): (r: int32)
    ensures (r - n) % 0x1_0000_0000 == 0
  {
    if n < 0x8000_0000 then n else n - 0x1_0000_0000
  }

  /** The 32-bit pattern of an `int`. */
  function Int32Bits(r: int32): (n: uint32)
    ensures Int32Of(n) == r
  {
    if r >= 0 then r else r + 0x1_0000_0000
  }
}
