/** Nearest-neighbour downsampling and letterboxing of src/utils.rs
    (`resize_fast_downsample`, `resize_with_padding_ultra_fast`).

    The source computes its scale factor and its sampling steps in `f32`;
    here they are exact rational arithmetic followed by the truncating
    `as i32` cast, which for the non-negative values involved is integer
    floor division. */
module Resize {
  import opened Bytes
  import opened Images

  /** Bytes per pixel that `resize_with_padding_ultra_fast` uses for each
      colour space: 3 for packed RGB, 2 for YUYV (two pixels per
      four-byte macropixel). The count is never zero, so the colour
      space alone never makes the chunk size zero; it never exceeds the
      three bytes per pixel `flip` assumes, and reaches it for RGB only. */
  function Channels(c: ColorSpace): (n: nat)
    ensures 0 < n <= BYTES_PER_PIXEL
    ensures n == BYTES_PER_PIXEL <==> c == RGB
  {
    match c
    case RGB => 3
    case YUV => 2
  }

  // ---------------------------------------------------------------------
  // Index arithmetic

  /** `a <= b` scales by any non-negative factor. */
  lemma MulLe(a: nat, b: nat, c: nat)
    requires a <= b
    ensures a * c <= b * c
  {
  }

  /** Where source pixel (`sx`, `sy`) starts in an image `sw` pixels wide:
      `(src_y * src_width + src_x) * channels`. */
  function Offset(sw: nat, ch: nat, sx: nat, sy: nat): nat
  {
    (sy * sw + sx) * ch
  }

  /** Pixel (`x`, `y`) starts `x` pixels into row `y`, and a row is
      `sw * ch` bytes long. */
  lemma OffsetSplit(sw: nat, ch: nat, x: nat, y: nat)
    ensures Offset(sw, ch, x, y) == y * (sw * ch) + x * ch
  {
  }

  /** Chunk `x` of `n` chunks of `ch` bytes ends where chunk `x + 1`
      starts, within the `n * ch` bytes. */
  lemma NextChunk(x: nat, n: nat, ch: nat)
    requires x < n
    ensures (x + 1) * ch == x * ch + ch <= n * ch
  {
    MulLe(x + 1, n, ch);
  }

  /** Pixels further right or further down start no earlier. */
  lemma OffsetMono(sw: nat, ch: nat, x1: nat, y1: nat, x2: nat, y2: nat)
    requires x1 <= x2 && y1 <= y2
    ensures Offset(sw, ch, x1, y1) <= Offset(sw, ch, x2, y2)
  {
    MulLe(y1, y2, sw);
    MulLe(y1 * sw + x1, y2 * sw + x2, ch);
  }

  /** `x as i32 * x_step`: the source coordinate that output coordinate
      `k` samples. */
  function Sample(k: nat, step: nat): nat
  {
    k * step
  }

  /** Pixel `k` of a run sampled every `step` pixels is not sampled after
      pixel `n - 1` of the run, for `k < n`. */
  lemma SampleMono(k: nat, n: nat, step: nat)
    requires k < n
    ensures Sample(k, step) <= Sample(n - 1, step)
  {
    MulLe(k, n - 1, step);
  }

  /** `(src as f32 / dst as f32).max(1.0) as i32` with exact division: the
      sampling step is the floor of `src / dst`, and never less than 1. A
      zero `dst` never reaches a sample, so its step is taken to be 1. */
  function Step(src: nat, dst: nat): (s: nat)
    ensures 1 <= s
    ensures 0 < dst <= src ==> s * dst <= src < (s + 1) * dst
    ensures src < dst ==> s == 1
  {
    if dst == 0 || src < dst then 1 else src / dst
  }

  /** No sampled source byte lies past `len`: the last pixel sampled, at
      (`(dw - 1) * xs`, `(dh - 1) * ys`), ends within the source. An empty
      output samples nothing. */
  predicate Fits(len: nat, sw: nat, ch: nat, xs: nat, ys: nat, dw: nat, dh: nat)
  {
    dw == 0 || dh == 0 || Offset(sw, ch, Sample(dw - 1, xs), Sample(dh - 1, ys)) + ch <= len
  }

  /** When the last sampled pixel fits, every sampled pixel does. */
  lemma PixelFits(len: nat, sw: nat, ch: nat, xs: nat, ys: nat, dw: nat, dh: nat, x: nat, y: nat)
    requires Fits(len, sw, ch, xs, ys, dw, dh) && x < dw && y < dh
    ensures Offset(sw, ch, Sample(x, xs), Sample(y, ys)) + ch <= len
  {
    SampleMono(x, dw, xs);
    SampleMono(y, dh, ys);
    OffsetMono(sw, ch, Sample(x, xs), Sample(y, ys), Sample(dw - 1, xs), Sample(dh - 1, ys));
  }

  /** Fewer rows fit when more rows do. */
  lemma FitsFewerRows(len: nat, sw: nat, ch: nat, xs: nat, ys: nat, dw: nat, dh: nat, m: nat)
    requires Fits(len, sw, ch, xs, ys, dw, dh) && m <= dh
    ensures Fits(len, sw, ch, xs, ys, dw, m)
  {
    if dw > 0 && m > 0 {
      PixelFits(len, sw, ch, xs, ys, dw, dh, dw - 1, m - 1);
    }
  }

  // ---------------------------------------------------------------------
  // Buffers filled row by row

  /** The rows of `rows`, one after another: what `par_chunks_exact_mut`
      leaves in a buffer whose chunks receive these rows in order. */
  function Flatten(rows: seq<seq<byte>>): seq<byte>
  {
    if |rows| == 0 then [] else Flatten(rows[.. |rows| - 1]) + rows[|rows| - 1]
  }

  /** Every row is `L` bytes long. */
  predicate Uniform(rows: seq<seq<byte>>, L: nat)
  {
    forall y :: 0 <= y < |rows| ==> |rows[y]| == L
  }

  /** `n` rows of `L` bytes flatten to `n * L` bytes. */
  lemma {:induction false} FlattenLength(rows: seq<seq<byte>>, L: nat)
    requires Uniform(rows, L)
    ensures |Flatten(rows)| == |rows| * L
    decreases |rows|
  {
    if |rows| > 0 {
      FlattenLength(rows[.. |rows| - 1], L);
      NextChunk(|rows| - 1, |rows|, L);
    }
  }

  /** Byte `j` of row `y` is byte `y * L + j` of the flattened rows. */
  lemma {:induction false} FlattenAt(rows: seq<seq<byte>>, L: nat, y: nat, j: nat)
    requires Uniform(rows, L) && y < |rows| && j < L
    ensures y * L + j < |Flatten(rows)| && Flatten(rows)[y * L + j] == rows[y][j]
    decreases |rows|
  {
    var init := rows[.. |rows| - 1];
    FlattenLength(rows, L);
    FlattenLength(init, L);
    NextChunk(y, |rows|, L);
    if y < |rows| - 1 {
      NextChunk(y, |rows| - 1, L);
      FlattenAt(init, L, y, j);
      assert init[y] == rows[y];
    }
  }

  // ---------------------------------------------------------------------
  // resize_fast_downsample

  /** The `ch` bytes of source pixel `x * xs` of source row `sy`, the last
      of the first `n` that a row samples. */
  function SourcePixel(src: seq<byte>, sw: nat, ch: nat, xs: nat, sy: nat, n: nat, x: nat): (px: seq<byte>)
    requires x < n && Offset(sw, ch, Sample(n - 1, xs), sy) + ch <= |src|
    ensures |px| == ch
  {
    SampleMono(x, n, xs);
    OffsetMono(sw, ch, Sample(x, xs), sy, Sample(n - 1, xs), sy);
    var o := Offset(sw, ch, Sample(x, xs), sy);
    src[o .. o + ch]
  }

  /** The first `n` pixels of a row that samples source row `sy`: pixel
      `x` is source pixel (`x * xs`, `sy`). */
  function SampledPixels(src: seq<byte>, sw: nat, ch: nat, xs: nat, sy: nat, n: nat): (pixels: seq<seq<byte>>)
    requires n == 0 || Offset(sw, ch, Sample(n - 1, xs), sy) + ch <= |src|
    ensures |pixels| == n && Uniform(pixels, ch)
  {
    seq(n, x requires 0 <= x < n => SourcePixel(src, sw, ch, xs, sy, n, x))
  }

  /** The first `n` output pixels of a row that samples source row `sy`,
      `ch` bytes each. */
  function SampledRow(src: seq<byte>, sw: nat, ch: nat, xs: nat, sy: nat, n: nat): (row: seq<byte>)
    requires n == 0 || Offset(sw, ch, Sample(n - 1, xs), sy) + ch <= |src|
    ensures |row| == n * ch
  {
    FlattenLength(SampledPixels(src, sw, ch, xs, sy, n), ch);
    Flatten(SampledPixels(src, sw, ch, xs, sy, n))
  }

  /** Row `y` of the downsampled image: the sampled row for source row
      `y * ys`. */
  function DownsampledRowOf(src: seq<byte>, sw: nat, ch: nat, xs: nat, ys: nat, dw: nat, m: nat, y: nat): (row: seq<byte>)
    requires Fits(|src|, sw, ch, xs, ys, dw, m) && y < m
    ensures |row| == dw * ch
  {
    FitsFewerRows(|src|, sw, ch, xs, ys, dw, m, y + 1);
    SampledRow(src, sw, ch, xs, Sample(y, ys), dw)
  }

  /** The first `m` rows of the downsampled image. */
  function DownsampledRows(src: seq<byte>, sw: nat, ch: nat, xs: nat, ys: nat, dw: nat, m: nat): (rows: seq<seq<byte>>)
    requires Fits(|src|, sw, ch, xs, ys, dw, m)
    ensures |rows| == m && Uniform(rows, dw * ch)
  {
    seq(m, y requires 0 <= y < m => DownsampledRowOf(src, sw, ch, xs, ys, dw, m, y))
  }

  /** The first `m` rows of the downsampled image, one after another. */
  function Downsampled(src: seq<byte>, sw: nat, ch: nat, xs: nat, ys: nat, dw: nat, m: nat): (out: seq<byte>)
    requires Fits(|src|, sw, ch, xs, ys, dw, m)
    ensures |out| == m * (dw * ch)
  {
    FlattenLength(DownsampledRows(src, sw, ch, xs, ys, dw, m), dw * ch);
    Flatten(DownsampledRows(src, sw, ch, xs, ys, dw, m))
  }

  lemma RowStep(src: seq<byte>, sw: nat, ch: nat, xs: nat, ys: nat, dw: nat, dh: nat, y: nat)
    requires Fits(|src|, sw, ch, xs, ys, dw, dh) && y < dh && 0 < dw
    ensures Fits(|src|, sw, ch, xs, ys, dw, y) && Fits(|src|, sw, ch, xs, ys, dw, y + 1)
    ensures y * (dw * ch) + dw * ch <= dh * (dw * ch)
    ensures Offset(sw, ch, Sample(dw - 1, xs), Sample(y, ys)) + ch <= |src|
    ensures Downsampled(src, sw, ch, xs, ys, dw, y + 1)
         == Downsampled(src, sw, ch, xs, ys, dw, y) + SampledRow(src, sw, ch, xs, Sample(y, ys), dw)
  {
    FitsFewerRows(|src|, sw, ch, xs, ys, dw, dh, y + 1);
    NextChunk(y, dh, dw * ch);
    DownsampledNext(src, sw, ch, xs, ys, dw, y);
  }

  /** One more row appends the sampled row for source row `m * ys`. */
  lemma DownsampledNext(src: seq<byte>, sw: nat, ch: nat, xs: nat, ys: nat, dw: nat, m: nat)
    requires Fits(|src|, sw, ch, xs, ys, dw, m + 1)
    ensures Fits(|src|, sw, ch, xs, ys, dw, m)
    ensures dw == 0 || Offset(sw, ch, Sample(dw - 1, xs), Sample(m, ys)) + ch <= |src|
    ensures Downsampled(src, sw, ch, xs, ys, dw, m + 1)
         == Downsampled(src, sw, ch, xs, ys, dw, m) + SampledRow(src, sw, ch, xs, Sample(m, ys), dw)
  {
    FitsFewerRows(|src|, sw, ch, xs, ys, dw, m + 1, m);
    var next, prev := DownsampledRows(src, sw, ch, xs, ys, dw, m + 1), DownsampledRows(src, sw, ch, xs, ys, dw, m);
    assert next[.. m] == prev;
    assert next[m] == SampledRow(src, sw, ch, xs, Sample(m, ys), dw);
  }

  /** Byte `c` of output pixel `x` in a sampled row is byte `c` of source
      pixel (`x * xs`, `sy`). */
  lemma SampledRowAt(src: seq<byte>, sw: nat, ch: nat, xs: nat, sy: nat, n: nat, x: nat, c: nat, j: nat, from: nat)
    requires x < n && c < ch
    requires Offset(sw, ch, Sample(n - 1, xs), sy) + ch <= |src|
    requires j == x * ch + c && from == Offset(sw, ch, Sample(x, xs), sy) + c
    ensures j < |SampledRow(src, sw, ch, xs, sy, n)| && from < |src|
    ensures SampledRow(src, sw, ch, xs, sy, n)[j] == src[from]
  {
    FlattenAt(SampledPixels(src, sw, ch, xs, sy, n), ch, x, c);
    SampleMono(x, n, xs);
    OffsetMono(sw, ch, Sample(x, xs), sy, Sample(n - 1, xs), sy);
  }

  /** Row `y` of the downsampled image is the sampled row for source row
      `y * ys`, starting at byte `y * dw * ch`. */
  lemma DownsampledRow(src: seq<byte>, sw: nat, ch: nat, xs: nat, ys: nat, dw: nat, m: nat, y: nat, j: nat)
    requires Fits(|src|, sw, ch, xs, ys, dw, m)
    requires y < m && j < dw * ch
    ensures Fits(|src|, sw, ch, xs, ys, dw, y + 1)
    ensures y * (dw * ch) + j < |Downsampled(src, sw, ch, xs, ys, dw, m)|
    ensures Downsampled(src, sw, ch, xs, ys, dw, m)[y * (dw * ch) + j]
         == SampledRow(src, sw, ch, xs, Sample(y, ys), dw)[j]
  {
    FitsFewerRows(|src|, sw, ch, xs, ys, dw, m, y + 1);
    FlattenAt(DownsampledRows(src, sw, ch, xs, ys, dw, m), dw * ch, y, j);
  }

  /** Output pixel (`x`, `y`) of the downsampled image, which starts at
      `Offset(dw, ch, x, y)`, copies the `ch` bytes of source pixel
      (`x * xs`, `y * ys`). */
  lemma DownsampledAt(src: seq<byte>, sw: nat, ch: nat, xs: nat, ys: nat, dw: nat, dh: nat, x: nat, y: nat, c: nat)
    requires Fits(|src|, sw, ch, xs, ys, dw, dh)
    requires x < dw && y < dh && c < ch
    ensures Offset(dw, ch, x, y) + c < |Downsampled(src, sw, ch, xs, ys, dw, dh)|
    ensures Offset(sw, ch, Sample(x, xs), Sample(y, ys)) + c < |src|
    ensures Downsampled(src, sw, ch, xs, ys, dw, dh)[Offset(dw, ch, x, y) + c]
         == src[Offset(sw, ch, Sample(x, xs), Sample(y, ys)) + c]
  {
    PixelByte(dw, ch, x, y, c);
    var out, j: nat, at := Downsampled(src, sw, ch, xs, ys, dw, dh), x * ch + c, Offset(dw, ch, x, y) + c;
    var from := Offset(sw, ch, Sample(x, xs), Sample(y, ys)) + c;
    assert Offset(sw, ch, Sample(dw - 1, xs), Sample(y, ys)) + ch <= |src| by {
      PixelFits(|src|, sw, ch, xs, ys, dw, dh, dw - 1, y);
    }
    var row := SampledRow(src, sw, ch, xs, Sample(y, ys), dw);
    assert at < |out| && out[at] == row[j] by {
      DownsampledByte(src, sw, ch, xs, ys, dw, dh, y, j, at);
    }
    assert from < |src| && row[j] == src[from] by {
      SampledRowAt(src, sw, ch, xs, Sample(y, ys), dw, x, c, j, from);
    }
  }

  /** `DownsampledRow` for byte `at` of the output, given as a position. */
  lemma DownsampledByte(src: seq<byte>, sw: nat, ch: nat, xs: nat, ys: nat, dw: nat, m: nat, y: nat, j: nat, at: nat)
    requires Fits(|src|, sw, ch, xs, ys, dw, m)
    requires y < m && j < dw * ch && at == y * (dw * ch) + j
    ensures Fits(|src|, sw, ch, xs, ys, dw, y + 1)
    ensures at < |Downsampled(src, sw, ch, xs, ys, dw, m)|
    ensures Downsampled(src, sw, ch, xs, ys, dw, m)[at] == SampledRow(src, sw, ch, xs, Sample(y, ys), dw)[j]
  {
    DownsampledRow(src, sw, ch, xs, ys, dw, m, y, j);
  }

  /** Byte `c` of pixel (`x`, `y`) of a `w`-pixel-wide image is byte
      `x * ch + c` of row `y`. */
  lemma PixelByte(w: nat, ch: nat, x: nat, y: nat, c: nat)
    requires x < w && c < ch
    ensures 0 <= x * ch + c < w * ch
    ensures Offset(w, ch, x, y) + c == y * (w * ch) + (x * ch + c)
  {
    MulLe(0, x, ch);
    NextChunk(x, w, ch);
    OffsetSplit(w, ch, x, y);
  }

  /** After `pre`, sampled pixel `x` of a row, which starts `k` bytes into
      the row and at `at` in `want`, is the `ch` bytes of its source pixel,
      which start at `from`. */
  lemma SampledPixel(want: seq<byte>, pre: seq<byte>, src: seq<byte>, sw: nat, ch: nat, xs: nat, sy: nat, n: nat, x: nat,
                     k: nat, at: nat, from: nat)
    requires x < n && Offset(sw, ch, Sample(n - 1, xs), sy) + ch <= |src|
    requires want == pre + SampledRow(src, sw, ch, xs, sy, n)
    requires k == x * ch && at == |pre| + k && from == Offset(sw, ch, Sample(x, xs), sy)
    ensures at + ch <= |want| && from + ch <= |src|
    ensures forall j :: at <= j < at + ch ==> want[j] == src[j - at + from]
  {
    NextChunk(x, n, ch);
    SampleMono(x, n, xs);
    OffsetMono(sw, ch, Sample(x, xs), sy, Sample(n - 1, xs), sy);
    forall j | at <= j < at + ch
      ensures want[j] == src[j - at + from]
    {
      SampledByte(want, pre, src, sw, ch, xs, sy, n, x, j - at, k + (j - at), j, from + (j - at));
    }
  }

  /** Byte `c` of `SampledPixel`: byte `r` of the row, byte `j` of `want`. */
  lemma SampledByte(want: seq<byte>, pre: seq<byte>, src: seq<byte>, sw: nat, ch: nat, xs: nat, sy: nat, n: nat, x: nat,
                    c: nat, r: nat, j: nat, from: nat)
    requires x < n && c < ch && Offset(sw, ch, Sample(n - 1, xs), sy) + ch <= |src|
    requires want == pre + SampledRow(src, sw, ch, xs, sy, n)
    requires r == x * ch + c && j == |pre| + r && from == Offset(sw, ch, Sample(x, xs), sy) + c
    ensures j < |want| && from < |src| && want[j] == src[from]
  {
    SampledRowAt(src, sw, ch, xs, sy, n, x, c, r, from);
  }

  /** Copies `count` bytes of `src` from `from` on into `out` from `at` on,
      byte by byte: the inner `for c in 0..channels` loop of
      `resize_fast_downsample` and the `copy_from_slice` of
      `resize_with_padding_ultra_fast`. When `out` agrees with `want` up to
      `at` and the bytes copied are the ones `want` has next, they agree up
      to `at + count`; the bytes after the run keep their values. */
  method CopyRun(out: array<byte>, at: nat, src: seq<byte>, from: nat, count: nat, ghost want: seq<byte>)
    requires at + count <= out.Length && at + count <= |want| && from + count <= |src|
    requires forall j :: at <= j < at + count ==> want[j] == src[j - at + from]
    requires forall j :: 0 <= j < at ==> out[j] == want[j]
    modifies out
    ensures forall j :: 0 <= j < at + count ==> out[j] == want[j]
    ensures forall j :: at + count <= j < out.Length ==> out[j] == old(out[j])
  {
    var c := 0;
    while c < count
      invariant 0 <= c <= count
      invariant forall j :: 0 <= j < at + c ==> out[j] == want[j]
      invariant forall j :: at + count <= j < out.Length ==> out[j] == old(out[j])
    {
      out[at + c] := src[from + c];
      c := c + 1;
    }
  }

  /** The body of the per-row closure of `resize_fast_downsample`: fills
      the `dw * ch` bytes of `out` from `rowStart` on with the pixels that
      sample source row `srcY`, every `xStep`-th pixel, copying each pixel
      byte by byte; nothing before `rowStart` changes. */
  method FillRow(out: array<byte>, rowStart: nat, src: seq<byte>, srcWidth: nat, channels: nat,
                 xStep: nat, srcY: nat, dstWidth: nat)
    requires 0 < dstWidth && rowStart + dstWidth * channels <= out.Length
    requires Offset(srcWidth, channels, Sample(dstWidth - 1, xStep), srcY) + channels <= |src|
    modifies out
    ensures out[.. rowStart + dstWidth * channels]
         == old(out[.. rowStart]) + SampledRow(src, srcWidth, channels, xStep, srcY, dstWidth)
  {
    ghost var pre := out[.. rowStart];
    ghost var want := pre + SampledRow(src, srcWidth, channels, xStep, srcY, dstWidth);
    var x := 0;
    var dstIdx := 0;
    while x < dstWidth
      invariant 0 <= x <= dstWidth && dstIdx == x * channels
      invariant rowStart + dstIdx <= out.Length && rowStart + dstIdx <= |want|
      invariant forall j :: 0 <= j < rowStart + dstIdx ==> out[j] == want[j]
    {
      FillPixel(out, rowStart, src, srcWidth, channels, xStep, srcY, dstWidth, x, dstIdx, pre, want);
      x := x + 1;
      dstIdx := dstIdx + channels;
    }
    assert out[.. rowStart + dstIdx] == want;
  }

  /** One iteration of the per-pixel loop of `FillRow`: copies output pixel
      `x`, which starts `dstIdx` bytes into the row, from its source pixel. */
  method FillPixel(out: array<byte>, rowStart: nat, src: seq<byte>, srcWidth: nat, channels: nat,
                   xStep: nat, srcY: nat, dstWidth: nat, x: nat, dstIdx: nat, ghost pre: seq<byte>, ghost want: seq<byte>)
    requires x < dstWidth && dstIdx == x * channels && rowStart + dstWidth * channels <= out.Length
    requires Offset(srcWidth, channels, Sample(dstWidth - 1, xStep), srcY) + channels <= |src|
    requires |pre| == rowStart && want == pre + SampledRow(src, srcWidth, channels, xStep, srcY, dstWidth)
    requires forall j :: 0 <= j < rowStart + dstIdx ==> out[j] == want[j]
    modifies out
    ensures dstIdx + channels == (x + 1) * channels
    ensures rowStart + dstIdx + channels <= out.Length && rowStart + dstIdx + channels <= |want|
    ensures forall j :: 0 <= j < rowStart + dstIdx + channels ==> out[j] == want[j]
  {
    var srcIdx := Offset(srcWidth, channels, Sample(x, xStep), srcY);
    NextChunk(x, dstWidth, channels);
    SampledPixel(want, pre, src, srcWidth, channels, xStep, srcY, dstWidth, x, dstIdx, rowStart + dstIdx, srcIdx);
    CopyRun(out, rowStart + dstIdx, src, srcIdx, channels, want);
  }

  /** The `par_chunks_exact_mut(dst_width * channels)` walk of
      `resize_fast_downsample`: row `y` of `out` receives the sampled row for
      source row `y * yStep`. */
  method FillRows(out: array<byte>, src: seq<byte>, srcWidth: nat, channels: nat,
                  xStep: nat, yStep: nat, dstWidth: nat, dstHeight: nat)
    requires 0 < dstWidth && out.Length == dstHeight * (dstWidth * channels)
    requires Fits(|src|, srcWidth, channels, xStep, yStep, dstWidth, dstHeight)
    modifies out
    ensures out[..] == Downsampled(src, srcWidth, channels, xStep, yStep, dstWidth, dstHeight)
  {
    var rowLen := dstWidth * channels;
    var y := 0;
    var rowStart := 0;
    while y < dstHeight
      invariant 0 <= y <= dstHeight && rowStart == y * rowLen && rowStart <= out.Length
      invariant Fits(|src|, srcWidth, channels, xStep, yStep, dstWidth, y)
      invariant out[.. rowStart] == Downsampled(src, srcWidth, channels, xStep, yStep, dstWidth, y)
    {
      FillNextRow(out, src, srcWidth, channels, xStep, yStep, dstWidth, dstHeight, y, rowStart);
      rowStart := rowStart + rowLen;
      y := y + 1;
    }
    assert rowStart == out.Length;
  }

  /** One iteration of `FillRows`: fills row `y`, which starts at
      `rowStart`, so that one more row of `out` agrees with the image. */
  method FillNextRow(out: array<byte>, src: seq<byte>, srcWidth: nat, channels: nat,
                     xStep: nat, yStep: nat, dstWidth: nat, dstHeight: nat, y: nat, rowStart: nat)
    requires 0 < dstWidth && out.Length == dstHeight * (dstWidth * channels)
    requires Fits(|src|, srcWidth, channels, xStep, yStep, dstWidth, dstHeight)
    requires y < dstHeight && rowStart == y * (dstWidth * channels) && rowStart <= out.Length
    requires Fits(|src|, srcWidth, channels, xStep, yStep, dstWidth, y)
    requires out[.. rowStart] == Downsampled(src, srcWidth, channels, xStep, yStep, dstWidth, y)
    modifies out
    ensures rowStart + dstWidth * channels == (y + 1) * (dstWidth * channels) <= out.Length
    ensures Fits(|src|, srcWidth, channels, xStep, yStep, dstWidth, y + 1)
    ensures out[.. rowStart + dstWidth * channels] == Downsampled(src, srcWidth, channels, xStep, yStep, dstWidth, y + 1)
  {
    RowStep(src, srcWidth, channels, xStep, yStep, dstWidth, dstHeight, y);
    NextChunk(y, dstHeight, dstWidth * channels);
    FillRow(out, rowStart, src, srcWidth, channels, xStep, Sample(y, yStep), dstWidth);
  }

  /** `resize_fast_downsample(src_image, (dst_width, dst_height), channels)`:
      allocates a zeroed `dst_width * dst_height * channels`-byte buffer,
      computes the two sampling steps and fills the buffer row by row with
      nearest neighbours. A zero chunk size (`dst_width * channels == 0`)
      panics in `par_chunks_exact_mut`, and a sampled index outside the
      source data panics; both are excluded here and checked by the caller. */
  method ResizeFastDownsample(srcImage: Image, dstWidth: nat, dstHeight: nat, channels: nat) returns (dst: seq<byte>)
    requires 0 <= srcImage.width && 0 <= srcImage.height
    requires 0 < dstWidth && 0 < channels
    requires Fits(srcImage.data.Length, srcImage.width, channels,
                  Step(srcImage.width, dstWidth), Step(srcImage.height, dstHeight), dstWidth, dstHeight)
    ensures dst == Downsampled(srcImage.data[..], srcImage.width, channels,
                               Step(srcImage.width, dstWidth), Step(srcImage.height, dstHeight), dstWidth, dstHeight)
  {
    var out := new byte[dstHeight * (dstWidth * channels)](_ => 0);
    var xStep := Step(srcImage.width, dstWidth);
    var yStep := Step(srcImage.height, dstHeight);
    FillRows(out, srcImage.data[..], srcImage.width, channels, xStep, yStep, dstWidth, dstHeight);
    dst := out[..];
  }

  /** With `0 < dst <= src`, the last of `dst` samples taken every
      `Step(src, dst)` pixels is still inside the `src` pixels. */
  lemma StepSpan(src: nat, dst: nat)
    requires 0 < dst <= src
    ensures Sample(dst - 1, Step(src, dst)) <= src - 1
  {
    var s := Step(src, dst);
    assert (dst - 1) * s == s * dst - s;
  }

  /** The last pixel of a `sw` by `sh` image ends at byte `sw * sh * ch`. */
  lemma LastPixelEnd(sw: nat, sh: nat, ch: nat)
    requires 0 < sw && 0 < sh
    ensures Offset(sw, ch, sw - 1, sh - 1) + ch == sw * sh * ch
  {
    assert (sh - 1) * sw + (sw - 1) + 1 == sh * sw;
    assert ((sh - 1) * sw + (sw - 1)) * ch + ch == (sh * sw) * ch;
  }

  /** When the output is no larger than the source in either direction and
      the source holds `sw * sh` whole pixels, every sampled index is in
      bounds. */
  lemma SampledInBoundsWhenShrinking(len: nat, sw: nat, sh: nat, ch: nat, dw: nat, dh: nat)
    requires dw <= sw && dh <= sh && sw * sh * ch <= len
    ensures Fits(len, sw, ch, Step(sw, dw), Step(sh, dh), dw, dh)
  {
    if dw > 0 && dh > 0 {
      var xs, ys := Step(sw, dw), Step(sh, dh);
      StepSpan(sw, dw);
      StepSpan(sh, dh);
      OffsetMono(sw, ch, Sample(dw - 1, xs), Sample(dh - 1, ys), sw - 1, sh - 1);
      LastPixelEnd(sw, sh, ch);
    }
  }

  // ---------------------------------------------------------------------
  // resize_with_padding_ultra_fast

  /** The size an `ow` by `oh` image is scaled to so that it fits an `nw` by
      `nh` canvas with its aspect ratio kept. When `ow * nh > oh * nw` the
      image is relatively wider than the canvas, so it fills the canvas
      width and its height is the floor of `oh * nw / ow`; otherwise it
      fills the canvas height and its width is the floor of `ow * nh / oh`.
      A zero-height image in the second case gives the `f32` scale an
      infinity or NaN, which the `as i32` casts turn into a zero size. */
  function ScaledSize(ow: nat, oh: nat, nw: nat, nh: nat): (r: (nat, nat))
    ensures r.0 <= nw && r.1 <= nh
  {
    if ow * nh > oh * nw then
      ScaleToFit(ow, oh, nw, nh);
      (nw, Scaled(oh, nw, ow))
    else if oh == 0 then (0, 0)
    else
      ScaleToFit(oh, ow, nh, nw);
      (Scaled(ow, nh, oh), nh)
  }

  /** `(o as f32 * (n as f32 / m as f32)) as i32`, with exact arithmetic:
      side `o` scaled by `n / m` and truncated. */
  function Scaled(o: nat, n: nat, m: nat): nat
    requires 0 < m
  {
    o * n / m
  }

  /** The scaled size, characterised without division: the image fills
      the canvas width exactly when `ow * nh > oh * nw` (an exact integer
      comparison) and its height is then the largest `h` with
      `h * ow <= oh * nw`; otherwise it fills the canvas height and its
      width is the largest `w` with `w * oh <= ow * nh`. */
  lemma ScaledSizeFits(ow: nat, oh: nat, nw: nat, nh: nat)
    ensures var r := ScaledSize(ow, oh, nw, nh);
      && (ow * nh > oh * nw ==> r.0 == nw && r.1 * ow <= oh * nw < (r.1 + 1) * ow)
      && (ow * nh <= oh * nw && 0 < oh ==> r.1 == nh && r.0 * oh <= ow * nh < (r.0 + 1) * oh)
      && (ow * nh <= oh * nw && oh == 0 ==> r == (0, 0))
  {
    if ow * nh > oh * nw {
      ScaleToFit(ow, oh, nw, nh);
    } else if oh > 0 {
      ScaleToFit(oh, ow, nh, nw);
    }
  }

  /** When side `m` of the image is the limiting one (`m * limit > o * n`
      or, with `m > 0`, `>=`), scaling the other side `o` by `n / m` gives
      at most `limit`, and that floor is characterised by its bracketing
      products. */
  lemma ScaleToFit(m: nat, o: nat, n: nat, limit: nat)
    requires m * limit > o * n || (0 < m && m * limit >= o * n)
    ensures 0 < m
    ensures Scaled(o, n, m) <= limit
    ensures Scaled(o, n, m) * m <= o * n < (Scaled(o, n, m) + 1) * m
  {
    var q := o * n / m;
    assert q * m + o * n % m == o * n;
    if q > limit {
      MulLe(limit + 1, q, m);
    }
  }

  /** `(total - content) / 2`: the padding before content of size `content`
      centred in `total`; when the slack is odd the extra unit goes after
      the content. */
  function PadBefore(total: nat, content: nat): (r: nat)
    requires content <= total
    ensures 2 * r <= total - content <= 2 * r + 1
  {
    (total - content) / 2
  }

  /** Where the resized image sits on the canvas, in bytes: each canvas
      row is `rowLength` bytes; the resized image has `height` rows of `run`
      bytes, and its rows are canvas rows `top` to `top + height - 1`, each
      starting `left` bytes into the canvas row. */
  datatype Placement = Placement(rowLength: nat, left: nat, run: nat, top: nat, height: nat)
  {
    predicate Valid()
    {
      left + run <= rowLength
    }

    /** Whether canvas row `y` shows a row of the resized image. */
    predicate InBand(y: nat)
    {
      top <= y < top + height
    }

    /** `src_y * scaled_width * channels`: where in the resized image the
        row shown on canvas row `y` starts. */
    function SourceStart(y: nat): nat
      requires InBand(y)
    {
      (y - top) * run
    }
  }

  /** Row `y - top` of the resized image lies inside its bytes. */
  lemma ResizedRowInside(p: Placement, y: nat)
    requires p.InBand(y)
    ensures p.SourceStart(y) + p.run <= p.height * p.run
  {
    NextChunk(y - p.top, p.height, p.run);
  }

  /** Canvas row `y`: inside the band, `left` zero bytes, then row
      `y - top` of `resized`, then zero bytes up to the row length; outside
      the band, all zero. */
  function CanvasRow(resized: seq<byte>, p: Placement, y: nat): (row: seq<byte>)
    requires p.Valid() && |resized| == p.height * p.run
    ensures |row| == p.rowLength
  {
    if p.InBand(y) then
      var start := p.SourceStart(y);
      ResizedRowInside(p, y);
      Zeros(p.left) + resized[start .. start + p.run] + Zeros(p.rowLength - p.left - p.run)
    else
      Zeros(p.rowLength)
  }

  /** The first `m` rows of the canvas. */
  function CanvasRows(resized: seq<byte>, p: Placement, m: nat): (rows: seq<seq<byte>>)
    requires p.Valid() && |resized| == p.height * p.run
    ensures |rows| == m && Uniform(rows, p.rowLength)
  {
    seq(m, y requires 0 <= y => CanvasRow(resized, p, y))
  }

  /** The first `m` rows of the canvas, one after another. */
  function Canvas(resized: seq<byte>, p: Placement, m: nat): (out: seq<byte>)
    requires p.Valid() && |resized| == p.height * p.run
    ensures |out| == m * p.rowLength
  {
    FlattenLength(CanvasRows(resized, p, m), p.rowLength);
    Flatten(CanvasRows(resized, p, m))
  }

  /** Byte `j` of canvas row `y` is byte `j - left` of row `y - top` of the
      resized image when the row is in the band and `j` falls in the `run`
      bytes the image covers from `left` on, and zero otherwise. */
  lemma CanvasRowAt(resized: seq<byte>, p: Placement, y: nat, j: nat)
    requires p.Valid() && |resized| == p.height * p.run
    requires j < p.rowLength
    ensures p.InBand(y) && p.left <= j < p.left + p.run ==>
      var from := p.SourceStart(y) + (j - p.left);
      from < |resized| && CanvasRow(resized, p, y)[j] == resized[from]
    ensures !(p.InBand(y) && p.left <= j < p.left + p.run) ==> CanvasRow(resized, p, y)[j] == 0
  {
    var row := CanvasRow(resized, p, y);
    if !p.InBand(y) {
      assert row == Zeros(p.rowLength);
    } else {
      var start := p.SourceStart(y);
      ResizedRowInside(p, y);
      var z1, mid, z2 := Zeros(p.left), resized[start .. start + p.run], Zeros(p.rowLength - p.left - p.run);
      var front := z1 + mid;
      assert row == front + z2 && |front| == p.left + p.run;
      if j < p.left {
        assert row[j] == 0 by {
          assert row[j] == front[j] == z1[j];
        }
      } else if j < p.left + p.run {
        assert row[j] == resized[start + (j - p.left)] by {
          assert row[j] == front[j] == mid[j - p.left];
        }
      } else {
        assert row[j] == 0 by {
          assert row[j] == z2[j - |front|];
        }
      }
    }
  }

  /** Row `y` of the canvas occupies the `rowLength` bytes from
      `start == y * rowLength` on. */
  lemma CanvasAt(resized: seq<byte>, p: Placement, m: nat, y: nat, start: nat, j: nat)
    requires p.Valid() && |resized| == p.height * p.run
    requires y < m && start == y * p.rowLength && j < p.rowLength
    ensures start + j < |Canvas(resized, p, m)|
    ensures Canvas(resized, p, m)[start + j] == CanvasRow(resized, p, y)[j]
  {
    FlattenAt(CanvasRows(resized, p, m), p.rowLength, y, j);
  }

  /** Canvas row `y`, which starts at byte `start` of the canvas, is zero
      outside the band and, inside it, before byte `left` of the row and
      from byte `left + run` on. */
  lemma RowMargins(resized: seq<byte>, p: Placement, m: nat, y: nat, start: nat)
    requires p.Valid() && |resized| == p.height * p.run
    requires y < m && start == y * p.rowLength
    ensures start + p.rowLength <= |Canvas(resized, p, m)|
    ensures var want, lo := Canvas(resized, p, m), start + p.left;
      forall j :: start <= j < start + p.rowLength && !(p.InBand(y) && lo <= j < lo + p.run) ==> want[j] == 0
  {
    var want, lo := Canvas(resized, p, m), start + p.left;
    NextChunk(y, m, p.rowLength);
    forall j | start <= j < start + p.rowLength && !(p.InBand(y) && lo <= j < lo + p.run)
      ensures want[j] == 0
    {
      CanvasAt(resized, p, m, y, start, j - start);
      CanvasRowAt(resized, p, y, j - start);
    }
  }

  /** Inside the band, canvas row `y`, which starts at byte `start` of the
      canvas, holds row `y - top` of the resized image from byte
      `at == start + left` on; that row starts at byte `from` of `resized`. */
  lemma RowImage(resized: seq<byte>, p: Placement, m: nat, y: nat, start: nat, at: nat, from: nat)
    requires p.Valid() && |resized| == p.height * p.run
    requires y < m && start == y * p.rowLength && p.InBand(y)
    requires at == start + p.left && from == p.SourceStart(y)
    ensures at + p.run <= |Canvas(resized, p, m)| && from + p.run <= |resized|
    ensures forall j :: at <= j < at + p.run ==> Canvas(resized, p, m)[j] == resized[j - at + from]
  {
    ResizedRowInside(p, y);
    NextChunk(y, m, p.rowLength);
    forall j | at <= j < at + p.run
      ensures Canvas(resized, p, m)[j] == resized[j - at + from]
    {
      ImageByte(resized, p, m, y, start, at, from, j);
    }
  }

  /** Canvas byte `j` in the image run of canvas row `y`. */
  lemma ImageByte(resized: seq<byte>, p: Placement, m: nat, y: nat, start: nat, at: nat, from: nat, j: nat)
    requires p.Valid() && |resized| == p.height * p.run
    requires y < m && start == y * p.rowLength && p.InBand(y)
    requires at == start + p.left && from == p.SourceStart(y)
    requires at <= j < at + p.run
    ensures j < |Canvas(resized, p, m)| && j - at + from < |resized|
    ensures Canvas(resized, p, m)[j] == resized[j - at + from]
  {
    var k := j - start;
    assert p.left <= k < p.left + p.run <= p.rowLength;
    CanvasAt(resized, p, m, y, start, k);
    CanvasRowAt(resized, p, y, k);
    assert j - at + from == p.SourceStart(y) + (k - p.left);
  }

  /** The `par_chunks_exact_mut(new_width * channels)` walk of
      `resize_with_padding_ultra_fast` over the zero-filled canvas: rows in
      the band receive a row of `resized` at byte `left`; other rows, and
      the margins of banded rows, stay zero. */
  method PlaceRows(out: array<byte>, resized: seq<byte>, p: Placement, rows: nat)
    requires p.Valid() && |resized| == p.height * p.run
    requires out.Length == rows * p.rowLength
    requires forall j :: 0 <= j < out.Length ==> out[j] == 0
    modifies out
    ensures out[..] == Canvas(resized, p, rows)
  {
    ghost var want := Canvas(resized, p, rows);
    var y := 0;
    var rowStart := 0;
    while y < rows
      invariant 0 <= y <= rows && rowStart == y * p.rowLength && rowStart <= out.Length
      invariant forall j :: 0 <= j < rowStart ==> out[j] == want[j]
      invariant forall j :: rowStart <= j < out.Length ==> out[j] == 0
    {
      PlaceRow(out, resized, p, rows, y, rowStart, want);
      rowStart := rowStart + p.rowLength;
      y := y + 1;
    }
    assert out[..] == want;
  }

  /** One step of the band loop: canvas row `y`, still zero, receives its
      row of `resized` when it lies in the band, and then agrees with the
      canvas; the rows after it stay zero. */
  method PlaceRow(out: array<byte>, resized: seq<byte>, p: Placement, rows: nat, y: nat, rowStart: nat,
                  ghost want: seq<byte>)
    requires p.Valid() && |resized| == p.height * p.run
    requires out.Length == rows * p.rowLength && want == Canvas(resized, p, rows)
    requires y < rows && rowStart == y * p.rowLength && rowStart <= out.Length
    requires forall j :: 0 <= j < rowStart ==> out[j] == want[j]
    requires forall j :: rowStart <= j < out.Length ==> out[j] == 0
    modifies out
    ensures rowStart + p.rowLength == (y + 1) * p.rowLength <= out.Length
    ensures forall j :: 0 <= j < rowStart + p.rowLength ==> out[j] == want[j]
    ensures forall j :: rowStart + p.rowLength <= j < out.Length ==> out[j] == 0
  {
    NextChunk(y, rows, p.rowLength);
    RowMargins(resized, p, rows, y, rowStart);
    if p.top <= y && y < p.top + p.height {
      var at, from := rowStart + p.left, p.SourceStart(y);
      RowImage(resized, p, rows, y, rowStart, at, from);
      CopyRun(out, at, resized, from, p.run, want);
    }
  }

  /** Where `resize_with_padding_ultra_fast` puts the resized `sw` by `sh`
      image on an `nw` by `nh` canvas of `ch`-byte pixels:
      `pad_left = (nw - sw) / 2` pixels in and `pad_top = (nh - sh) / 2`
      rows down. The padded row always fits in the canvas row. */
  function PlacementOf(nw: nat, nh: nat, ch: nat, sw: nat, sh: nat): (p: Placement)
    requires sw <= nw && sh <= nh
    ensures p.Valid()
  {
    var left := PadBefore(nw, sw);
    MulLe(left + sw, nw, ch);
    Placement(nw * ch, left * ch, sw * ch, PadBefore(nh, sh), sh)
  }

  /** Every pixel sampled at the steps `xs` and `ys` for a `dw` by `dh`
      output lies inside the `len` bytes of the source. */
  predicate AllSampledInside(len: nat, sw: nat, ch: nat, xs: nat, ys: nat, dw: nat, dh: nat)
  {
    forall x: nat, y: nat | x < dw && y < dh :: Offset(sw, ch, Sample(x, xs), Sample(y, ys)) + ch <= len
  }

  /** Whether `resize_with_padding_ultra_fast` runs to completion on an
      `ow` by `oh` image of `len` bytes and `ch`-byte pixels: the scaled
      width is positive, since `par_chunks_exact_mut` panics on a zero
      chunk size, and every pixel the downsampler samples lies inside the
      data, since `src[src_idx + c]` panics otherwise. The check itself
      looks at the last sampled pixel only. */
  predicate ResizeDefined(len: nat, ow: nat, oh: nat, nw: nat, nh: nat, ch: nat): (b: bool)
    ensures var r := ScaledSize(ow, oh, nw, nh);
      b <==> 0 < r.0 && 0 < ch && AllSampledInside(len, ow, ch, Step(ow, r.0), Step(oh, r.1), r.0, r.1)
  {
    var r := ScaledSize(ow, oh, nw, nh);
    var xs, ys := Step(ow, r.0), Step(oh, r.1);
    assert Fits(len, ow, ch, xs, ys, r.0, r.1) ==> AllSampledInside(len, ow, ch, xs, ys, r.0, r.1) by {
      if Fits(len, ow, ch, xs, ys, r.0, r.1) {
        forall x: nat, y: nat | x < r.0 && y < r.1
          ensures Offset(ow, ch, Sample(x, xs), Sample(y, ys)) + ch <= len
        {
          PixelFits(len, ow, ch, xs, ys, r.0, r.1, x, y);
        }
      }
    }
    0 < r.0 && 0 < ch && Fits(len, ow, ch, xs, ys, r.0, r.1)
  }

  /** The canvas `resize_with_padding_ultra_fast` returns: the downsampled
      image placed on an `nw` by `nh` zero canvas by `PlacementOf`. */
  function Letterboxed(src: seq<byte>, ow: nat, oh: nat, nw: nat, nh: nat, ch: nat): seq<byte>
    requires ResizeDefined(|src|, ow, oh, nw, nh, ch)
  {
    var r := ScaledSize(ow, oh, nw, nh);
    Placed(src, ow, oh, ch, nw, nh, r.0, r.1)
  }

  /** The `ow` by `oh` image `src` downsampled to `sw` by `sh` and placed
      on an `nw` by `nh` zero canvas by `PlacementOf`. */
  function Placed(src: seq<byte>, ow: nat, oh: nat, ch: nat, nw: nat, nh: nat, sw: nat, sh: nat): seq<byte>
    requires sw <= nw && sh <= nh && Fits(|src|, ow, ch, Step(ow, sw), Step(oh, sh), sw, sh)
  {
    var resized := Downsampled(src, ow, ch, Step(ow, sw), Step(oh, sh), sw, sh);
    Canvas(resized, PlacementOf(nw, nh, ch, sw, sh), nh)
  }

  /** `resize_with_padding_ultra_fast(img, (new_width, new_height),
      color_type)`: scales to `ScaledSize`, downsamples, and copies the
      result row by row into a zeroed `new_width * new_height * channels`
      canvas at the padding offsets. The new image keeps the source's
      timestamp and takes the requested size and colour space. */
  method ResizeWithPaddingUltraFast(img: Image, newWidth: nat, newHeight: nat, colorType: ColorSpace) returns (r: Image)
    requires 0 <= img.width && 0 <= img.height
    requires ResizeDefined(img.data.Length, img.width, img.height, newWidth, newHeight, Channels(colorType))
    ensures fresh(r) && fresh(r.data)
    ensures r.width == newWidth && r.height == newHeight
    ensures r.timestamp == img.timestamp && r.colorSpace == colorType
    ensures r.data[..] == Letterboxed(img.data[..], img.width, img.height, newWidth, newHeight, Channels(colorType))
  {
    var channels := Channels(colorType);
    var size := ScaledSize(img.width, img.height, newWidth, newHeight);
    var resized := ResizeFastDownsample(img, size.0, size.1, channels);
    var p := PlacementOf(newWidth, newHeight, channels, size.0, size.1);
    var finalImage := ZeroCanvas(newWidth, newHeight, channels);
    PlaceRows(finalImage, resized, p, newHeight);
    r := new Image(finalImage, newWidth, newHeight, colorType, img.timestamp);
  }

  /** `vec![0u8; (new_width * new_height * channels) as usize]`. */
  method ZeroCanvas(w: nat, h: nat, ch: nat) returns (a: array<byte>)
    ensures fresh(a) && a.Length == w * h * ch == h * (w * ch)
    ensures forall j :: 0 <= j < a.Length ==> a[j] == 0
  {
    CanvasBytes(w, h, ch);
    a := new byte[w * h * ch](_ => 0);
  }

  /** The canvas holds exactly `new_width * new_height * channels` bytes. */
  lemma LetterboxedSize(src: seq<byte>, ow: nat, oh: nat, nw: nat, nh: nat, ch: nat)
    requires ResizeDefined(|src|, ow, oh, nw, nh, ch)
    ensures |Letterboxed(src, ow, oh, nw, nh, ch)| == nw * nh * ch
  {
    var r := ScaledSize(ow, oh, nw, nh);
    assert |Placed(src, ow, oh, ch, nw, nh, r.0, r.1)| == nh * (nw * ch);
    CanvasBytes(nw, nh, ch);
  }

  /** A `w` by `h` canvas of `ch`-byte pixels is `h` rows of `w * ch`
      bytes. */
  lemma CanvasBytes(w: nat, h: nat, ch: nat)
    ensures w * h * ch == h * (w * ch)
  {
  }

  /** Canvas pixel (`x`, `y`) lies inside the resized image's rectangle:
      `pad_top <= y < pad_top + sh` and `pad_left <= x < pad_left + sw`. */
  predicate InImage(ow: nat, oh: nat, nw: nat, nh: nat, x: nat, y: nat)
  {
    var r := ScaledSize(ow, oh, nw, nh);
    var left, top := PadBefore(nw, r.0), PadBefore(nh, r.1);
    top <= y < top + r.1 && left <= x < left + r.0
  }

  /** Byte `c` of pixel `x` falls in the byte run of pixels `left` to
      `left + n - 1` exactly when pixel `x` is one of them, and then it is
      byte `c` of the run's pixel `x - left`. */
  lemma PixelInRun(left: nat, n: nat, ch: nat, x: nat, c: nat)
    requires c < ch
    ensures left <= x < left + n <==> left * ch <= x * ch + c < left * ch + n * ch
    ensures left <= x ==> x * ch + c - left * ch == (x - left) * ch + c
  {
    if x < left {
      MulLe(x + 1, left, ch);
    } else {
      assert x * ch == left * ch + (x - left) * ch;
      if x < left + n {
        NextChunk(x - left, n, ch);
      } else {
        MulLe(n, x - left, ch);
      }
    }
  }

  /** Inside the image's rectangle, byte `c` of canvas pixel (`x`, `y`) is
      byte `c` of resized pixel (`x - pad_left`, `y - pad_top`). */
  lemma CanvasPixel(resized: seq<byte>, nw: nat, nh: nat, ch: nat, sw: nat, sh: nat, x: nat, y: nat, c: nat)
    requires sw <= nw && sh <= nh && |resized| == sh * (sw * ch)
    requires x < nw && y < nh && c < ch
    requires PadBefore(nw, sw) <= x < PadBefore(nw, sw) + sw && PadBefore(nh, sh) <= y < PadBefore(nh, sh) + sh
    ensures var p := PlacementOf(nw, nh, ch, sw, sh);
      && Offset(nw, ch, x, y) + c < |Canvas(resized, p, nh)|
      && Offset(sw, ch, x - PadBefore(nw, sw), y - PadBefore(nh, sh)) + c < |resized|
      && Canvas(resized, p, nh)[Offset(nw, ch, x, y) + c]
         == resized[Offset(sw, ch, x - PadBefore(nw, sw), y - PadBefore(nh, sh)) + c]
  {
    var p := PlacementOf(nw, nh, ch, sw, sh);
    var left, top := PadBefore(nw, sw), PadBefore(nh, sh);
    var start, j := y * (nw * ch), x * ch + c;
    assert 0 <= start && 0 <= j < p.rowLength && Offset(nw, ch, x, y) + c == start + j
        && p.InBand(y) && p.left <= j < p.left + p.run
        && p.SourceStart(y) + (j - p.left) == Offset(sw, ch, x - left, y - top) + c by {
      MulLe(0, y, nw * ch);
      MulLe(0, x, ch);
      OffsetSplit(nw, ch, x, y);
      PixelInRun(left, sw, ch, x, c);
      NextChunk(x, nw, ch);
      OffsetSplit(sw, ch, x - left, y - top);
    }
    CanvasAt(resized, p, nh, y, start, j);
    CanvasRowAt(resized, p, y, j);
  }

  /** Outside the image's rectangle every canvas byte is zero. */
  lemma CanvasMargin(resized: seq<byte>, nw: nat, nh: nat, ch: nat, sw: nat, sh: nat, x: nat, y: nat, c: nat)
    requires sw <= nw && sh <= nh && |resized| == sh * (sw * ch)
    requires x < nw && y < nh && c < ch
    requires !(PadBefore(nw, sw) <= x < PadBefore(nw, sw) + sw && PadBefore(nh, sh) <= y < PadBefore(nh, sh) + sh)
    ensures var p := PlacementOf(nw, nh, ch, sw, sh);
      && Offset(nw, ch, x, y) + c < |Canvas(resized, p, nh)|
      && Canvas(resized, p, nh)[Offset(nw, ch, x, y) + c] == 0
  {
    var p := PlacementOf(nw, nh, ch, sw, sh);
    var start, j := y * (nw * ch), x * ch + c;
    assert 0 <= start && 0 <= j < p.rowLength && Offset(nw, ch, x, y) + c == start + j
        && !(p.InBand(y) && p.left <= j < p.left + p.run) by {
      MulLe(0, y, nw * ch);
      MulLe(0, x, ch);
      OffsetSplit(nw, ch, x, y);
      PixelInRun(PadBefore(nw, sw), sw, ch, x, c);
      NextChunk(x, nw, ch);
    }
    CanvasAt(resized, p, nh, y, start, j);
    CanvasRowAt(resized, p, y, j);
  }

  /** Inside the image's rectangle, byte `c` of canvas pixel (`x`, `y`)
      is byte `c` of source pixel
      (`(x - pad_left) * x_step`, `(y - pad_top) * y_step`). */
  lemma PlacedImage(src: seq<byte>, ow: nat, oh: nat, ch: nat, nw: nat, nh: nat, sw: nat, sh: nat, x: nat, y: nat, c: nat)
    requires sw <= nw && sh <= nh && Fits(|src|, ow, ch, Step(ow, sw), Step(oh, sh), sw, sh)
    requires x < nw && y < nh && c < ch
    requires PadBefore(nw, sw) <= x < PadBefore(nw, sw) + sw && PadBefore(nh, sh) <= y < PadBefore(nh, sh) + sh
    ensures var at := Offset(ow, ch, Sample(x - PadBefore(nw, sw), Step(ow, sw)), Sample(y - PadBefore(nh, sh), Step(oh, sh))) + c;
      && Offset(nw, ch, x, y) + c < |Placed(src, ow, oh, ch, nw, nh, sw, sh)| && at < |src|
      && Placed(src, ow, oh, ch, nw, nh, sw, sh)[Offset(nw, ch, x, y) + c] == src[at]
  {
    var xs, ys := Step(ow, sw), Step(oh, sh);
    var resized := Downsampled(src, ow, ch, xs, ys, sw, sh);
    var canvas := Canvas(resized, PlacementOf(nw, nh, ch, sw, sh), nh);
    var k, r := Offset(nw, ch, x, y) + c, Offset(sw, ch, x - PadBefore(nw, sw), y - PadBefore(nh, sh)) + c;
    var at := Offset(ow, ch, Sample(x - PadBefore(nw, sw), xs), Sample(y - PadBefore(nh, sh), ys)) + c;
    assert Placed(src, ow, oh, ch, nw, nh, sw, sh) == canvas;
    assert k < |canvas| && r < |resized| && canvas[k] == resized[r] by {
      CanvasPixel(resized, nw, nh, ch, sw, sh, x, y, c);
    }
    assert at < |src| && resized[r] == src[at] by {
      DownsampledAt(src, ow, ch, xs, ys, sw, sh, x - PadBefore(nw, sw), y - PadBefore(nh, sh), c);
    }
  }

  /** Inside the resized image's rectangle, byte `c` of canvas pixel
      (`x`, `y`) of `resize_with_padding_ultra_fast`'s result is byte `c`
      of source pixel (`(x - pad_left) * x_step`, `(y - pad_top) * y_step`). */
  lemma LetterboxedImage(src: seq<byte>, ow: nat, oh: nat, nw: nat, nh: nat, ch: nat, x: nat, y: nat, c: nat)
    requires ResizeDefined(|src|, ow, oh, nw, nh, ch)
    requires x < nw && y < nh && c < ch && InImage(ow, oh, nw, nh, x, y)
    ensures var r := ScaledSize(ow, oh, nw, nh);
      var left, top := PadBefore(nw, r.0), PadBefore(nh, r.1);
      var at := Offset(ow, ch, Sample(x - left, Step(ow, r.0)), Sample(y - top, Step(oh, r.1))) + c;
      && Offset(nw, ch, x, y) + c < |Letterboxed(src, ow, oh, nw, nh, ch)| && at < |src|
      && Letterboxed(src, ow, oh, nw, nh, ch)[Offset(nw, ch, x, y) + c] == src[at]
  {
    var r := ScaledSize(ow, oh, nw, nh);
    PlacedImage(src, ow, oh, ch, nw, nh, r.0, r.1, x, y, c);
  }

  /** Outside the resized image's rectangle every byte of the letterboxed
      canvas is zero: whole rows above and below the image, and the left
      and right margins of the rows beside it. */
  lemma LetterboxedMargin(src: seq<byte>, ow: nat, oh: nat, nw: nat, nh: nat, ch: nat, x: nat, y: nat, c: nat)
    requires ResizeDefined(|src|, ow, oh, nw, nh, ch)
    requires x < nw && y < nh && c < ch && !InImage(ow, oh, nw, nh, x, y)
    ensures Offset(nw, ch, x, y) + c < |Letterboxed(src, ow, oh, nw, nh, ch)|
    ensures Letterboxed(src, ow, oh, nw, nh, ch)[Offset(nw, ch, x, y) + c] == 0
  {
    var r := ScaledSize(ow, oh, nw, nh);
    var resized := Downsampled(src, ow, ch, Step(ow, r.0), Step(oh, r.1), r.0, r.1);
    assert Letterboxed(src, ow, oh, nw, nh, ch) == Canvas(resized, PlacementOf(nw, nh, ch, r.0, r.1), nh);
    CanvasMargin(resized, nw, nh, ch, r.0, r.1, x, y, c);
  }

  /** A source at least as large as the canvas in both directions, whose
      data holds all of its pixels, is letterboxed without a panic exactly
      when its scaled width is not zero. */
  lemma DownscaleDefined(len: nat, ow: nat, oh: nat, nw: nat, nh: nat, ch: nat)
    requires nw <= ow && nh <= oh && ow * oh * ch <= len && 0 < ch
    ensures ResizeDefined(len, ow, oh, nw, nh, ch) <==> 0 < ScaledSize(ow, oh, nw, nh).0
  {
    var r := ScaledSize(ow, oh, nw, nh);
    SampledInBoundsWhenShrinking(len, ow, oh, ch, r.0, r.1);
  }

  /** The downsampler cannot enlarge: a source narrower than the canvas
      that fills the canvas width is scaled up in both directions, sampled
      with steps of 1, and its last sampled pixel lies past the end of its
      data, so `resize_with_padding_ultra_fast` panics. */
  lemma UpscalingOverruns(len: nat, ow: nat, oh: nat, nw: nat, nh: nat, ch: nat)
    requires len == ow * oh * ch && 0 < ch && 0 < oh && ow < nw && ow * nh > oh * nw
    ensures !ResizeDefined(len, ow, oh, nw, nh, ch)
  {
    var r := ScaledSize(ow, oh, nw, nh);
    ScaledSizeFits(ow, oh, nw, nh);
    MulLe(ow, nw, oh);
    if r.1 + 1 <= oh {
      MulLe(r.1 + 1, oh, ow);
    }
    assert oh <= r.1;
    assert Step(ow, r.0) == 1 && Step(oh, r.1) == 1;
    OffsetMono(ow, ch, ow, oh - 1, nw - 1, r.1 - 1);
    assert Offset(ow, ch, ow, oh - 1) == ow * oh * ch by {
      assert (oh - 1) * ow + ow == oh * ow;
    }
  }
}

