/** The pixel pipeline of src/utils.rs: packed YUYV 4:2:2 <-> 24-bit BGR
    layout conversion, nearest-neighbour downsampling and letterboxing.

    The per-pixel colour formulas (`ycbcr_to_rgb`, `rgb_to_ycbcr` and the
    `clamp` they share) are floating point; they enter the model as
    function parameters that map one byte triple to another, and nothing
    below depends on what they compute. */
module FrameCodec {
  import opened Bytes
  import opened Images

  type Triple = (byte, byte, byte)

  /** `ycbcr_to_rgb`: (Y, Cb, Cr) to (R, G, B). */
  type ToRgb = Triple -> Triple

  /** `rgb_to_ycbcr`: (R, G, B) to (Y, Cb, Cr). */
  type ToYCbCr = Triple -> Triple

  // ---------------------------------------------------------------------
  // YUYV 4:2:2 -> 24-bit, blue first

  /** The six output bytes of one (Y1, Cb, Y2, Cr) macropixel: two pixels
      that share the macropixel's chroma, each converted to (R, G, B) and
      stored blue first. Two equal lumas give two equal pixels. */
  function MacropixelToBgr(m: seq<byte>, toRgb: ToRgb): (r: seq<byte>)
    requires |m| == 4
    ensures |r| == 6
    ensures m[0] == m[2] ==> r[..3] == r[3..]
  {
    var p1, p2 := toRgb((m[0], m[1], m[3])), toRgb((m[2], m[1], m[3]));
    [p1.2, p1.1, p1.0, p2.2, p2.1, p2.0]
  }

  /** What `yuv422_to_rgb24` writes: one six-byte group per complete
      four-byte macropixel of `yuv`; a trailing partial macropixel is
      ignored, as `par_chunks_exact(4)` ignores it. */
  function Rgb24Of(yuv: seq<byte>, toRgb: ToRgb): (out: seq<byte>)
    ensures |out| == 6 * (|yuv| / 4)
    decreases |yuv|
  {
    if |yuv| < 4 then []
    else MacropixelToBgr(yuv[..4], toRgb) + Rgb24Of(yuv[4..], toRgb)
  }

  /** Converting two buffers one after the other is converting their
      concatenation, when the first holds whole macropixels. */
  lemma {:induction false} Rgb24OfAppend(a: seq<byte>, b: seq<byte>, toRgb: ToRgb)
    requires |a| % 4 == 0
    ensures Rgb24Of(a + b, toRgb) == Rgb24Of(a, toRgb) + Rgb24Of(b, toRgb)
    decreases |a|
  {
    if |a| == 0 {
      assert a + b == b;
    } else {
      var ab := a + b;
      assert ab[..4] == a[..4];
      assert ab[4..] == a[4..] + b;
      Rgb24OfAppend(a[4..], b, toRgb);
      calc {
        Rgb24Of(ab, toRgb);
        MacropixelToBgr(a[..4], toRgb) + Rgb24Of(a[4..] + b, toRgb);
        MacropixelToBgr(a[..4], toRgb) + (Rgb24Of(a[4..], toRgb) + Rgb24Of(b, toRgb));
        (MacropixelToBgr(a[..4], toRgb) + Rgb24Of(a[4..], toRgb)) + Rgb24Of(b, toRgb);
        { assert |a| >= 4; }
        Rgb24Of(a, toRgb) + Rgb24Of(b, toRgb);
      }
    }
  }

  /** Macropixel `k` = (Y1, Cb, Y2, Cr) becomes the six bytes starting at
      `6 * k`: pixel one is (Y1, Cb, Cr) and pixel two is (Y2, Cb, Cr), both
      converted and stored blue first. */
  lemma {:induction false} Rgb24OfMacropixel(yuv: seq<byte>, k: nat, toRgb: ToRgb)
    requires 4 * k + 4 <= |yuv|
    ensures var out, y1, cb, y2, cr := Rgb24Of(yuv, toRgb), yuv[4 * k], yuv[4 * k + 1], yuv[4 * k + 2], yuv[4 * k + 3];
      var p1, p2 := toRgb((y1, cb, cr)), toRgb((y2, cb, cr));
      && out[6 * k] == p1.2 && out[6 * k + 1] == p1.1 && out[6 * k + 2] == p1.0
      && out[6 * k + 3] == p2.2 && out[6 * k + 4] == p2.1 && out[6 * k + 5] == p2.0
  {
    Rgb24OfChunk(yuv, k, toRgb);
    var out := Rgb24Of(yuv, toRgb);
    assert yuv[4 * k .. 4 * k + 4][1] == yuv[4 * k + 1];
    assert out[6 * k .. 6 * k + 6][5] == out[6 * k + 5];
  }

  /** The six bytes at `6 * k` of the output are macropixel `k` converted. */
  lemma {:induction false} Rgb24OfChunk(yuv: seq<byte>, k: nat, toRgb: ToRgb)
    requires 4 * k + 4 <= |yuv|
    ensures 6 * k + 6 <= |Rgb24Of(yuv, toRgb)|
    ensures Rgb24Of(yuv, toRgb)[6 * k .. 6 * k + 6] == MacropixelToBgr(yuv[4 * k .. 4 * k + 4], toRgb)
    decreases k
  {
    var head, tail := MacropixelToBgr(yuv[..4], toRgb), Rgb24Of(yuv[4..], toRgb);
    assert Rgb24Of(yuv, toRgb) == head + tail;
    if k > 0 {
      Rgb24OfChunk(yuv[4..], k - 1, toRgb);
      assert yuv[4..][4 * (k - 1) .. 4 * (k - 1) + 4] == yuv[4 * k .. 4 * k + 4];
      assert (head + tail)[6 * k .. 6 * k + 6] == tail[6 * (k - 1) .. 6 * (k - 1) + 6];
    }
  }

  /** A trailing partial macropixel contributes nothing: converting whole
      macropixels followed by fewer than four stray bytes is converting the
      whole macropixels alone. */
  lemma Rgb24OfPartialTail(a: seq<byte>, b: seq<byte>, toRgb: ToRgb)
    requires |a| % 4 == 0 && |b| < 4
    ensures Rgb24Of(a + b, toRgb) == Rgb24Of(a, toRgb)
  {
    Rgb24OfAppend(a, b, toRgb);
    assert Rgb24Of(a, toRgb) + [] == Rgb24Of(a, toRgb);
  }

  /** Macropixel `k` of a `len`-byte input has its six bytes inside an
      output of `len * 3 / 2` bytes. */
  lemma MacropixelRoom(len: nat)
    ensures 4 * (len / 4) <= len && 6 * (len / 4) <= len * 3 / 2
  {
  }

  /** Stores two converted pixels, blue first, in the six-byte chunk of
      `outBuf` that starts at `o`, extending a prefix that agrees with
      `want` by the six bytes `want` has there. */
  method PutPixelPair(outBuf: array<byte>, o: nat, rgb1: Triple, rgb2: Triple, ghost want: seq<byte>)
    requires o + 6 <= outBuf.Length && o + 6 <= |want|
    requires forall i :: 0 <= i < o ==> outBuf[i] == want[i]
    requires want[o] == rgb1.2 && want[o + 1] == rgb1.1 && want[o + 2] == rgb1.0
    requires want[o + 3] == rgb2.2 && want[o + 4] == rgb2.1 && want[o + 5] == rgb2.0
    modifies outBuf
    ensures forall i :: 0 <= i < o + 6 ==> outBuf[i] == want[i]
    ensures forall i :: o + 6 <= i < outBuf.Length ==> outBuf[i] == old(outBuf[i])
  {
    outBuf[o], outBuf[o + 1], outBuf[o + 2] := rgb1.2, rgb1.1, rgb1.0;
    outBuf[o + 3], outBuf[o + 4], outBuf[o + 5] := rgb2.2, rgb2.1, rgb2.0;
  }

  /** `yuv422_to_rgb24(in_buf, out_buf)`: the debug assertion demands
      `|out| == |in| * 3 / 2`; every complete macropixel is converted in
      place into `out_buf` and any bytes after the last six-byte group keep
      their old values. */
  method Yuv422ToRgb24(inBuf: seq<byte>, outBuf: array<byte>, toRgb: ToRgb)
    requires outBuf.Length == |inBuf| * 3 / 2
    modifies outBuf
    ensures outBuf[.. 6 * (|inBuf| / 4)] == Rgb24Of(inBuf, toRgb)
    ensures outBuf[6 * (|inBuf| / 4) ..] == old(outBuf[6 * (|inBuf| / 4) ..])
  {
    var n := |inBuf| / 4;
    ghost var want := Rgb24Of(inBuf, toRgb);
    MacropixelRoom(|inBuf|);
    assert |want| == 6 * n;
    var k, i, o := 0, 0, 0;  // macropixel `k` starts at `i` in and `o` out
    while k < n
      invariant 0 <= k <= n && i == 4 * k && o == 6 * k
      invariant forall j :: 0 <= j < o ==> outBuf[j] == want[j]
      invariant forall j :: o <= j < outBuf.Length ==> outBuf[j] == old(outBuf[j])
    {
      var y1, cb, y2, cr := inBuf[i], inBuf[i + 1], inBuf[i + 2], inBuf[i + 3];
      var rgb1 := toRgb((y1, cb, cr));
      var rgb2 := toRgb((y2, cb, cr));
      Rgb24OfMacropixel(inBuf, k, toRgb);
      PutPixelPair(outBuf, o, rgb1, rgb2, want);
      k, i, o := k + 1, i + 4, o + 6;
    }
  }

  // ---------------------------------------------------------------------
  // 24-bit, blue first -> YUYV 4:2:2

  /** The four output bytes (Y1, Cb, Y2, Cr) of one pair of stored pixels
      (B1, G1, R1, B2, G2, R2): the chroma comes from the first pixel only.
      Two equal pixels give two equal lumas. */
  function PairToYuyv(p: seq<byte>, toYCbCr: ToYCbCr): (r: seq<byte>)
    requires |p| == 6
    ensures |r| == 4
    ensures p[..3] == p[3..] ==> r[0] == r[2]
  {
    var (y1, cb, cr) := toYCbCr((p[2], p[1], p[0]));
    var (y2, _, _) := toYCbCr((p[5], p[4], p[3]));
    [y1, cb, y2, cr]
  }

  /** What `rgb24_to_yuv422` writes: one four-byte macropixel per complete
      six-byte pixel pair of `bgr`. */
  function Yuv422Of(bgr: seq<byte>, toYCbCr: ToYCbCr): (out: seq<byte>)
    ensures |out| == 4 * (|bgr| / 6)
    decreases |bgr|
  {
    if |bgr| < 6 then []
    else PairToYuyv(bgr[..6], toYCbCr) + Yuv422Of(bgr[6..], toYCbCr)
  }

  lemma {:induction false} Yuv422OfAppend(a: seq<byte>, b: seq<byte>, toYCbCr: ToYCbCr)
    requires |a| % 6 == 0
    ensures Yuv422Of(a + b, toYCbCr) == Yuv422Of(a, toYCbCr) + Yuv422Of(b, toYCbCr)
    decreases |a|
  {
    if |a| == 0 {
      assert a + b == b;
    } else {
      var ab := a + b;
      assert ab[..6] == a[..6];
      assert ab[6..] == a[6..] + b;
      Yuv422OfAppend(a[6..], b, toYCbCr);
      calc {
        Yuv422Of(ab, toYCbCr);
        PairToYuyv(a[..6], toYCbCr) + Yuv422Of(a[6..] + b, toYCbCr);
        PairToYuyv(a[..6], toYCbCr) + (Yuv422Of(a[6..], toYCbCr) + Yuv422Of(b, toYCbCr));
        (PairToYuyv(a[..6], toYCbCr) + Yuv422Of(a[6..], toYCbCr)) + Yuv422Of(b, toYCbCr);
        { assert |a| >= 6; }
        Yuv422Of(a, toYCbCr) + Yuv422Of(b, toYCbCr);
      }
    }
  }

  /** Pair `k` (B1, G1, R1, B2, G2, R2) becomes the macropixel starting at
      `4 * k`: Y1, Cb and Cr are all taken from the conversion of
      (R1, G1, B1); the second pixel contributes its luma Y2 and nothing
      else. */
  lemma {:induction false} Yuv422OfPair(bgr: seq<byte>, k: nat, toYCbCr: ToYCbCr)
    requires 6 * k + 6 <= |bgr|
    ensures var out, first, second := Yuv422Of(bgr, toYCbCr),
                toYCbCr((bgr[6 * k + 2], bgr[6 * k + 1], bgr[6 * k])),
                toYCbCr((bgr[6 * k + 5], bgr[6 * k + 4], bgr[6 * k + 3]));
      && out[4 * k] == first.0 && out[4 * k + 1] == first.1
      && out[4 * k + 2] == second.0 && out[4 * k + 3] == first.2
    decreases k
  {
    if k > 0 {
      Yuv422OfPair(bgr[6..], k - 1, toYCbCr);
    }
  }

  /** A trailing partial pixel pair contributes nothing. */
  lemma Yuv422OfPartialTail(a: seq<byte>, b: seq<byte>, toYCbCr: ToYCbCr)
    requires |a| % 6 == 0 && |b| < 6
    ensures Yuv422Of(a + b, toYCbCr) == Yuv422Of(a, toYCbCr)
  {
    Yuv422OfAppend(a, b, toYCbCr);
    assert Yuv422Of(a, toYCbCr) + [] == Yuv422Of(a, toYCbCr);
  }

  /** Every pixel pair of a `len`-byte input has its four bytes inside an
      output of `len * 2 / 3` bytes. */
  lemma PairRoom(len: nat)
    ensures 6 * (len / 6) <= len && 4 * (len / 6) <= len * 2 / 3
  {
  }

  /** Stores one (Y1, Cb, Y2, Cr) macropixel in the four-byte chunk of
      `outBuf` that starts at `o`, extending a prefix that agrees with
      `want` by the four bytes `want` has there. */
  method PutMacropixel(outBuf: array<byte>, o: nat, y1: byte, cb: byte, y2: byte, cr: byte, ghost want: seq<byte>)
    requires o + 4 <= outBuf.Length && o + 4 <= |want|
    requires forall i :: 0 <= i < o ==> outBuf[i] == want[i]
    requires want[o] == y1 && want[o + 1] == cb && want[o + 2] == y2 && want[o + 3] == cr
    modifies outBuf
    ensures forall i :: 0 <= i < o + 4 ==> outBuf[i] == want[i]
    ensures forall i :: o + 4 <= i < outBuf.Length ==> outBuf[i] == old(outBuf[i])
  {
    outBuf[o], outBuf[o + 1], outBuf[o + 2], outBuf[o + 3] := y1, cb, y2, cr;
  }

  /** `rgb24_to_yuv422(in_buf, out_buf)`: the debug assertion demands
      `|out| == |in| * 2 / 3`; every complete pixel pair is converted in
      place and any bytes after the last macropixel keep their old values. */
  method Rgb24ToYuv422(inBuf: seq<byte>, outBuf: array<byte>, toYCbCr: ToYCbCr)
    requires outBuf.Length == |inBuf| * 2 / 3
    modifies outBuf
    ensures outBuf[.. 4 * (|inBuf| / 6)] == Yuv422Of(inBuf, toYCbCr)
    ensures outBuf[4 * (|inBuf| / 6) ..] == old(outBuf[4 * (|inBuf| / 6) ..])
  {
    var n := |inBuf| / 6;
    ghost var want := Yuv422Of(inBuf, toYCbCr);
    PairRoom(|inBuf|);
    assert |want| == 4 * n;
    var k, i, o := 0, 0, 0;  // pair `k` starts at `i` in and `o` out
    while k < n
      invariant 0 <= k <= n && i == 6 * k && o == 4 * k
      invariant forall j :: 0 <= j < o ==> outBuf[j] == want[j]
      invariant forall j :: o <= j < outBuf.Length ==> outBuf[j] == old(outBuf[j])
    {
      var first := toYCbCr((inBuf[i + 2], inBuf[i + 1], inBuf[i]));
      var second := toYCbCr((inBuf[i + 5], inBuf[i + 4], inBuf[i + 3]));
      Yuv422OfPair(inBuf, k, toYCbCr);
      PutMacropixel(outBuf, o, first.0, first.1, second.0, first.2, want);
      k, i, o := k + 1, i + 6, o + 4;
    }
  }

  /** Pair `k` of a `len`-byte buffer has a macropixel in the converted
      buffer, and converting back yields as many pixel pairs as there were. */
  lemma PairCount(len: nat, k: nat)
    requires 6 * k + 6 <= len
    ensures 4 * k + 4 <= 4 * (len / 6) && (4 * (len / 6)) / 4 == len / 6
  {
  }

  /** Converting to 4:2:2 and back keeps every complete pixel pair and drops
      a trailing incomplete one. */
  lemma RoundTripLength(bgr: seq<byte>, toRgb: ToRgb, toYCbCr: ToYCbCr)
    ensures |Rgb24Of(Yuv422Of(bgr, toYCbCr), toRgb)| == 6 * (|bgr| / 6)
  {
    var n := |bgr| / 6;
    assert |Yuv422Of(bgr, toYCbCr)| == 4 * n;
    assert (4 * n) / 4 == n;
  }

  /** Converting to 4:2:2 and back with formulas that invert each other
      exactly restores the first pixel of every pair; the second pixel comes
      back with its own luma but the first pixel's chroma. This is where the
      round trip loses information: chroma is not averaged over the pair. */
  lemma RoundTripPair(bgr: seq<byte>, k: nat, toRgb: ToRgb, toYCbCr: ToYCbCr)
    requires forall p: Triple :: toRgb(toYCbCr(p)) == p
    requires 6 * k + 6 <= |bgr|
    ensures 6 * k + 6 <= |Rgb24Of(Yuv422Of(bgr, toYCbCr), toRgb)|
    ensures var back, first, second := Rgb24Of(Yuv422Of(bgr, toYCbCr), toRgb),
                toYCbCr((bgr[6 * k + 2], bgr[6 * k + 1], bgr[6 * k])),
                toYCbCr((bgr[6 * k + 5], bgr[6 * k + 4], bgr[6 * k + 3]));
      var mixed := toRgb((second.0, first.1, first.2));
      && back[6 * k] == bgr[6 * k] && back[6 * k + 1] == bgr[6 * k + 1] && back[6 * k + 2] == bgr[6 * k + 2]
      && back[6 * k + 3] == mixed.2 && back[6 * k + 4] == mixed.1 && back[6 * k + 5] == mixed.0
  {
    var yuv := Yuv422Of(bgr, toYCbCr);
    PairCount(|bgr|, k);
    var p := (bgr[6 * k + 2], bgr[6 * k + 1], bgr[6 * k]);
    var first := toYCbCr(p);
    Yuv422OfPair(bgr, k, toYCbCr);
    Rgb24OfMacropixel(yuv, k, toRgb);
    assert (yuv[4 * k], yuv[4 * k + 1], yuv[4 * k + 3]) == first;
    assert toRgb(first) == p;
  }
}
