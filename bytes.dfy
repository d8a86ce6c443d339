/** Byte-level vocabulary shared by the pixel pipeline, the wire framing and
    the capture device: the `u8` type, the `u32` big-endian conversions used
    by the length prefix, zero-filled vectors and `Vec::resize`. */
module Bytes {

  /** Rust's `u8`. */
  type byte = x: int | 0 <= x < 256

  /** One more than the largest `u32`. */
  const U32_LIMIT: nat := 0x1_0000_0000

  datatype Option<T> = None | Some(value: T)

  /** The `Result<_, String>` every fallible operation of the source returns. */
  datatype Result<T> = Ok(value: T) | Err(message: string)

  /** Rust's `as u32` on an integer: keeps the low 32 bits (two's complement
      wrap-around for negative values). */
  function U32(v: int): (r: nat)
    ensures r < U32_LIMIT
    ensures 0 <= v < U32_LIMIT ==> r == v
    ensures (r - v) % U32_LIMIT == 0
  {
    v % U32_LIMIT
  }

  /** `vec![0u8; n]`. */
  function Zeros(n: nat): (z: seq<byte>)
    ensures |z| == n
    ensures forall i :: 0 <= i < n ==> z[i] == 0
  {
    seq(n, _ => 0)
  }

  /** `Vec::resize(n, 0)`: truncates to `n`, or extends with zeros up to `n`. */
  function Resize(v: seq<byte>, n: nat): (r: seq<byte>)
    ensures |r| == n
    ensures forall i :: 0 <= i < n && i < |v| ==> r[i] == v[i]
    ensures forall i :: |v| <= i < n ==> r[i] == 0
  {
    if n <= |v| then v[..n] else v + Zeros(n - |v|)
  }

  /** `u32::to_be_bytes`: most significant byte first. */
  function ToBE32(v: nat): (b: seq<byte>)
    requires v < U32_LIMIT
    ensures |b| == 4
  {
    [v / 0x100_0000, (v / 0x1_0000) % 0x100, (v / 0x100) % 0x100, v % 0x100]
  }

  /** `u32::from_be_bytes`: every four bytes decode to a `u32`. */
  function FromBE32(b: seq<byte>): (v: nat)
    requires |b| == 4
    ensures v < U32_LIMIT
  {
    assert b[0] as int * 0x100_0000 <= 255 * 0x100_0000;
    assert b[1] as int * 0x1_0000 <= 255 * 0x1_0000;
    assert b[2] as int * 0x100 <= 255 * 0x100;
    b[0] as int * 0x100_0000 + b[1] as int * 0x1_0000 + b[2] as int * 0x100 + b[3] as int
  }

  /** Decoding an encoded length gives the length back. */
  lemma FromToBE32(v: nat)
    requires v < U32_LIMIT
    ensures FromBE32(ToBE32(v)) == v
  {
    var b := ToBE32(v);
    var q1, q2, q3 := v / 0x100, v / 0x1_0000, v / 0x100_0000;
    assert v == q1 * 0x100 + v % 0x100;
    assert q1 == q2 * 0x100 + q1 % 0x100 by {
      assert q1 / 0x100 == q2;
    }
    assert q2 == q3 * 0x100 + q2 % 0x100 by {
      assert q2 / 0x100 == q3;
    }
    assert b[1] == q2 % 0x100 && b[2] == q1 % 0x100;
  }

  /** The quotient of `v` by each power of 256 that `ToBE32` divides by,
      when `v` is known as quotient times divisor plus a smaller remainder. */
  lemma DivSplit(v: nat, q: nat, r: nat, shift: nat)
    requires shift == 1 || shift == 2 || shift == 3
    requires var d := if shift == 1 then 0x100 else if shift == 2 then 0x1_0000 else 0x100_0000;
      r < d && v == q * d + r
    ensures shift == 1 ==> v / 0x100 == q && v % 0x100 == r
    ensures shift == 2 ==> v / 0x1_0000 == q
    ensures shift == 3 ==> v / 0x100_0000 == q
  {
  }

  /** Encoding a decoded prefix gives the same four bytes back, so the two
      conversions are inverse bijections between `u32` and four bytes. */
  lemma ToFromBE32(b: seq<byte>)
    requires |b| == 4
    ensures FromBE32(b) < U32_LIMIT && ToBE32(FromBE32(b)) == b
  {
    var v := FromBE32(b);
    var b0, b1, b2, b3 := b[0] as int, b[1] as int, b[2] as int, b[3] as int;
    var high2 := b0 * 0x100 + b1;
    var high3 := high2 * 0x100 + b2;
    DivSplit(v, b0, (b1 * 0x100 + b2) * 0x100 + b3, 3);
    DivSplit(v, high2, b2 * 0x100 + b3, 2);
    DivSplit(high2, b0, b1, 1);
    DivSplit(v, high3, b3, 1);
    DivSplit(high3, high2, b2, 1);
    assert b == [b[0], b[1], b[2], b[3]];
  }
}
