/** Fixed-width little-endian byte encodings used on the wire between nodes,
    the Result type for decoding errors, and the two raw-memory primitives the
    C code relies on: memcpy into a buffer and realloc of a buffer. */
module Bytes {

  type byte = b: int | 0 <= b < 256

  /** A C `int` on the hosts this runs on: 32-bit two's complement. */
  type int32 = x: int | -0x8000_0000 <= x < 0x8000_0000

  /** Widths the wire format uses for `sizeof(int)`, `sizeof(float)` and `sizeof(size_t)`. */
  const INT_SIZE: nat := 4
  const FLOAT_SIZE: nat := 4
  const SIZE_T_SIZE: nat := 8

  /** Why a received message could not be decoded. In the C code each of these
      is an unchecked read past the buffer or through a bad index. */
  datatype Error = Truncated | NegativeLength | IndexOutOfRange

  datatype Result<+T> = Ok(value: T) | Err(error: Error) {
    predicate IsFailure() { Err? }
    function PropagateFailure<U>(): Result<U> requires Err? { Err(error) }
    function Extract(): T requires Ok? { value }
  }

  function Pow256(n: nat): (r: nat)
    ensures r >= 1
  {
    if n == 0 then 1 else 256 * Pow256(n - 1)
  }

  /** The `width` low-order bytes of `x`, least significant first. */
  function EncodeNat(x: nat, width: nat): (r: seq<byte>)
    ensures |r| == width
  {
    if width == 0 then [] else [x % 256] + EncodeNat(x / 256, width - 1)
  }

  /** The unsigned number whose little-endian bytes are `s`. */
  function DecodeNat(s: seq<byte>): (r: nat)
    ensures r < Pow256(|s|)
  {
    if s == [] then 0 else s[0] + 256 * DecodeNat(s[1..])
  }

  lemma {:induction false} NatRoundTrip(x: nat, width: nat)
    requires x < Pow256(width)
    ensures DecodeNat(EncodeNat(x, width)) == x
  {
    if width > 0 {
      var e := EncodeNat(x, width);
      assert e[1..] == EncodeNat(x / 256, width - 1);
      NatRoundTrip(x / 256, width - 1);
    }
  }

  lemma Pow256Values()
    ensures Pow256(4) == 0x1_0000_0000
    ensures Pow256(8) == 0x1_0000_0000_0000_0000
  {
  }

  /** A 32-bit signed integer as four bytes of its two's complement. */
  function EncodeInt32(x: int32): (r: seq<byte>)
    ensures |r| == INT_SIZE
  {
    EncodeNat(if x < 0 then x + 0x1_0000_0000 else x, INT_SIZE)
  }

  function DecodeInt32(s: seq<byte>): int32
    requires |s| == INT_SIZE
  {
    Pow256Values();
    var u := DecodeNat(s);
    if u >= 0x8000_0000 then u - 0x1_0000_0000 else u
  }

  lemma Int32RoundTrip(x: int32)
    ensures DecodeInt32(EncodeInt32(x)) == x
  {
    Pow256Values();
    NatRoundTrip(if x < 0 then x + 0x1_0000_0000 else x, INT_SIZE);
  }

  /** A `size_t` as eight bytes. */
  function EncodeSize(x: nat): (r: seq<byte>)
    requires x < 0x1_0000_0000_0000_0000
    ensures |r| == SIZE_T_SIZE
  {
    EncodeNat(x, SIZE_T_SIZE)
  }

  lemma SizeRoundTrip(x: nat)
    requires x < 0x1_0000_0000_0000_0000
    ensures DecodeNat(EncodeSize(x)) == x
  {
    Pow256Values();
    NatRoundTrip(x, SIZE_T_SIZE);
  }

  /** `memcpy(dst + at, src, |src| * sizeof(T))`. */
  method CopyInto<T>(dst: array<T>, at: nat, src: seq<T>)
    requires at + |src| <= dst.Length
    modifies dst
    ensures forall i :: 0 <= i < dst.Length ==>
      dst[i] == if at <= i < at + |src| then src[i - at] else old(dst[i])
    ensures dst[..at + |src|] == old(dst[..at]) + src
  {
    var k := 0;
    while k < |src|
      invariant 0 <= k <= |src|
      invariant forall i :: 0 <= i < dst.Length ==>
        dst[i] == if at <= i < at + k then src[i - at] else old(dst[i])
    {
      dst[at + k] := src[k];
      k := k + 1;
    }
    assert dst[..at + |src|] == old(dst[..at]) + src;
  }

  /** `memcpy(buffer + ptr, src, |src|); ptr += |src|;` — the write cursor
      idiom of the serialisers: the bytes before the cursor grow by `src`. */
  method Append(buffer: array<byte>, ptr: nat, src: seq<byte>) returns (next: nat)
    requires ptr + |src| <= buffer.Length
    modifies buffer
    ensures next == ptr + |src|
    ensures buffer[..next] == old(buffer[..ptr]) + src
  {
    CopyInto(buffer, ptr, src);
    next := ptr + |src|;
  }

  /** `realloc(buffer, size)` for a size that does not shrink the buffer: a new
      buffer of `size` elements whose first elements are the old buffer's. */
  method Grow<T(0)>(buffer: array<T>, size: nat) returns (grown: array<T>)
    requires buffer.Length <= size
    ensures fresh(grown) && grown.Length == size
    ensures grown[..buffer.Length] == buffer[..]
  {
    grown := new T[size];
    var k := 0;
    while k < buffer.Length
      invariant 0 <= k <= buffer.Length
      invariant grown[..k] == buffer[..k]
    {
      grown[k] := buffer[k];
      k := k + 1;
    }
  }
}
