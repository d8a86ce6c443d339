/** The `Image` record of the pipeline and its in-place `flip`
    (src/types.rs). */
module Images {
  import opened Bytes

  /** `COLOR_SPACE`: packed 24-bit pixels, or packed YUYV 4:2:2. */
  datatype ColorSpace = RGB | YUV

  /** Bytes per pixel that `flip` assumes, whatever the colour space. */
  const BYTES_PER_PIXEL: nat := 3

  /** An owned frame. `width` and `height` are Rust `i32`s; `timestamp` is
      seconds since the Unix epoch. Only `flip` changes an image after it is
      built, and it changes only the bytes of `data`. */
  class Image {
    var timestamp: nat
    var data: array<byte>
    var width: int
    var height: int
    var colorSpace: ColorSpace

    /** `Image::new`: the clock reading `now` stands for
        `SystemTime::now()`; every other field is stored as given. */
    constructor (data: array<byte>, width: int, height: int, colorSpace: ColorSpace, now: nat)
      ensures this.data == data && this.data[..] == old(data[..])
      ensures this.width == width && this.height == height
      ensures this.colorSpace == colorSpace && timestamp == now
    {
      this.timestamp := now;
      this.data := data;
      this.width := width;
      this.height := height;
      this.colorSpace := colorSpace;
    }

    /** `Image::flip`: walks the `height` rows of `width` three-byte pixels and
        reverses the bytes of each pixel (B,G,R becomes R,G,B). The row slice
        panics unless the first `width * height` pixels lie inside `data`. */
    method Flip()
      requires 0 <= width && 0 <= height && width * height * BYTES_PER_PIXEL <= data.Length
      modifies data
      ensures data[..] == SwapChannels(old(data[..]), width * height)
      ensures timestamp == old(timestamp) && width == old(width) && height == old(height)
      ensures colorSpace == old(colorSpace) && data == old(data)
    {
      var y := 0;
      var rowStart := 0;
      ghost var done := 0;  // pixels already reversed: `y * width`
      while y < height
        invariant 0 <= y <= height
        invariant done == y * width && rowStart == done * BYTES_PER_PIXEL
        invariant data[..] == SwapChannels(old(data[..]), done)
      {
        RowInRange(y, width, height);
        ReversePixels(data, rowStart, width, done, old(data[..]));
        rowStart := rowStart + width * BYTES_PER_PIXEL;
        done := done + width;
        y := y + 1;
      }
      assert done == width * height;
    }
  }

  /** `row.chunks_exact_mut(3).for_each(|chunk| chunk.reverse())` on the
      row of `count` pixels that starts at byte `start`, pixel `done`, when
      the pixels before it are already reversed: afterwards the row's
      pixels are too. */
  method ReversePixels(data: array<byte>, start: nat, count: nat, ghost done: nat, ghost orig: seq<byte>)
    requires start == done * BYTES_PER_PIXEL && start + count * BYTES_PER_PIXEL <= data.Length == |orig|
    requires data[..] == SwapChannels(orig, done)
    modifies data
    ensures data[..] == SwapChannels(orig, done + count)
  {
    var x := 0;
    while x < count
      invariant 0 <= x <= count
      invariant data[..] == SwapChannels(orig, done + x)
    {
      var i := start + x * BYTES_PER_PIXEL;
      SwapChannelsStep(orig, done + x);
      ghost var before := data[..];
      // `chunk.reverse()` on a three-byte chunk swaps its ends.
      data[i], data[i + 2] := data[i + 2], data[i];
      assert data[..] == before[i := before[i + 2]][i + 2 := before[i]];
      x := x + 1;
    }
  }

  /** Byte `i` of a pixel run after reversing each pixel: byte 0 and byte 2
      of a pixel trade places, byte 1 stays. */
  function SwappedIndex(i: nat): nat
  {
    i - i % 3 + 2 - i % 3
  }

  /** `s` with the byte order of each of its first `n` three-byte pixels
      reversed; everything from byte `3 * n` on is left alone. */
  function SwapChannels(s: seq<byte>, n: nat): seq<byte>
    requires 3 * n <= |s|
  {
    seq(|s|, i requires 0 <= i < |s| => if i < 3 * n then s[SwappedIndex(i)] else s[i])
  }

  /** Row `y` of a `width` by `height` image ends within its first
      `width * height` pixels. */
  lemma RowInRange(y: int, width: int, height: int)
    requires 0 <= width && 0 <= y < height
    ensures y * width + width <= width * height
  {
    assert y * width + width == (y + 1) * width;
    assert (y + 1) * width <= height * width;
  }

  /** Reversing one more pixel swaps exactly its first and last byte. */
  lemma SwapChannelsStep(s: seq<byte>, k: nat)
    requires 3 * (k + 1) <= |s|
    ensures var t := SwapChannels(s, k);
      SwapChannels(s, k + 1) == t[3 * k := t[3 * k + 2]][3 * k + 2 := t[3 * k]]
  {
    var t := SwapChannels(s, k);
    var a, b := SwapChannels(s, k + 1), t[3 * k := t[3 * k + 2]][3 * k + 2 := t[3 * k]];
    forall i | 0 <= i < |s| ensures a[i] == b[i] {
      if 3 * k <= i < 3 * k + 3 {
        assert i % 3 == i - 3 * k;
      }
    }
  }

  /** After `flip`, pixel `p` holds the bytes of the same pixel `p`, in
      reverse order: pixels neither move within a row nor between rows, so
      this is a channel swap and not a horizontal mirror. */
  lemma SwapChannelsPixel(s: seq<byte>, n: nat, p: nat)
    requires 3 * n <= |s| && p < n
    ensures |SwapChannels(s, n)| == |s|
    ensures SwapChannels(s, n)[3 * p .. 3 * p + 3] == [s[3 * p + 2], s[3 * p + 1], s[3 * p]]
  {
    var r := SwapChannels(s, n);
    assert (3 * p) % 3 == 0 && (3 * p + 1) % 3 == 1 && (3 * p + 2) % 3 == 2;
    assert r[3 * p] == s[3 * p + 2] && r[3 * p + 1] == s[3 * p + 1] && r[3 * p + 2] == s[3 * p];
  }

  /** Bytes past the first `n` pixels are untouched. */
  lemma SwapChannelsTail(s: seq<byte>, n: nat)
    requires 3 * n <= |s|
    ensures SwapChannels(s, n)[3 * n..] == s[3 * n..]
  {
  }

  /** Flipping twice restores the original bytes. */
  lemma SwapChannelsInvolution(s: seq<byte>, n: nat)
    requires 3 * n <= |s|
    ensures SwapChannels(SwapChannels(s, n), n) == s
  {
    var r := SwapChannels(SwapChannels(s, n), n);
    forall i | 0 <= i < |s| ensures r[i] == s[i] {
      if i < 3 * n {
        var j := SwappedIndex(i);
        assert j % 3 == 2 - i % 3 && j - j % 3 == i - i % 3;
      }
    }
  }
}
