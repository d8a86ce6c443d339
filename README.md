# rust_movenet frame path, modelled in Dafny

This project models the frame path of rust_movenet, a pose-estimation system in which a client captures frames from a V4L2 camera and sends them over TCP to a server. The server letterboxes each frame, converts it and runs a MoveNet interpreter on it. The model covers four parts of the Rust source.

- **Pixel pipeline** (`src/utils.rs`, modules `FrameCodec` and `Resize`):
  - the layout conversions `yuv422_to_rgb24` and `rgb24_to_yuv422`, over four-byte (Y1, Cb, Y2, Cr) macropixels and six-byte blue-first pixel pairs;
  - the nearest-neighbour downsampler `resize_fast_downsample`;
  - the letterboxing `resize_with_padding_ultra_fast`.

  The per-pixel colour formulas are floating point, so they enter as function parameters. Every index, length, byte order, padding offset and bound is stated exactly.
- **The `Image` record** (`src/types.rs`, module `Images`): a class whose `Flip` reverses the bytes of each three-byte pixel in place. It is proved to be a channel swap, not a mirror, and an involution.
- **The server loop** (`src/server/server_main.rs`, module `Framing`):
  - `handle_client` reads a four-byte big-endian length, grows its scratch buffer, reads and decodes the header, reads the payload, runs `inference` and writes the framed response. It is modelled on a byte-stream object with a read cursor.
  - The stream is specified by the mutually recursive functions `Serve`…`ServeScores`. The loop method is proved equal to them, and their properties are proved as lemmas.
  - Those properties are: framing round trips, buffer growth, timestamp echo, and that the client reads back exactly the encoded responses.
- **The camera** (`src/client/camera/mod.rs`, module `Capture`):
  - `Camera` drives a device object that logs every request it receives. The device answers each request from an arbitrary script of replies, so every property holds whatever the device answers.
  - The request orders of `init_device` and `allocate_and_mmap` are specified by functions over that script. The `fps` and `streaming` guards of `set_frame_rate`, `start_capture`, `stop_capture`, `capture_image` and `Drop` are method contracts.

`Bytes` holds the shared vocabulary: `u8`, the `as u32` cast, `u32::to_be_bytes`/`from_be_bytes` with their two-way inverse proof, `vec![0; n]` and `Vec::resize`.

Where the code's evident intent and its behaviour differ, the model follows the behaviour:
- **Payload read.** `handle_client` reads the payload into `Vec::with_capacity(n)`, which has length 0, so nothing is read. This is logged under "Findings".
- **Stream flag.** `start_capture` takes `&self` and never sets `streaming`. As a result, `stop_capture` and `Drop` never issue STREAMOFF, although `Drop` (`src/client/camera/mod.rs:432-441`) calls `stop_capture`, which checks `streaming` in order to stop the stream. `Camera.StartCapture` states that `streaming` is unchanged, and `Camera.StopCapture`/`Camera.Drop` state what follows when it is false.

## Model

| member | source | states |
|---|---|---|
| Bytes.U32 | src/server/server_main.rs:99 | `as u32` yields a value below 2^32 that is congruent to the input mod 2^32, and equals the input when it already fits |
| Bytes.Zeros | src/server/server_main.rs:59 | `vec![0; n]` has length `n` and every byte is zero |
| Bytes.Resize | src/server/server_main.rs:75-77 | `Vec::resize(n, 0)` has length `n`, keeps the old bytes below `n` and zero-fills the bytes past the old length |
| Bytes.ToBE32 | src/server/server_main.rs:101 | `to_be_bytes` of a `u32` is four bytes |
| Bytes.FromBE32 | src/server/server_main.rs:72 | `u32::from_be_bytes` of any four bytes is below 2^32; with `ToBE32` it forms the two inverse lemmas below |
| Bytes.FromToBE32 | src/server/server_main.rs:72 | decoding the big-endian encoding of a `u32` gives it back |
| Bytes.ToFromBE32 | src/server/server_main.rs:72 | encoding the decoded value gives the same four bytes back, so the two conversions are inverse bijections |
| Images.Image.constructor | src/types.rs:28-41 | `Image::new` stores data, width, height and colour space unchanged; the timestamp is the clock reading |
| Images.Image.Flip | src/types.rs:61-73 | requires the `width*height` pixels to lie inside `data` (the row slice panics otherwise); the data becomes `SwapChannels(old data, width*height)`, and the array, sizes, colour space and timestamp are unchanged |
| Images.ReversePixels | src/types.rs:72 | reversing each chunk of one row extends the channel-swapped prefix by that row's pixels |
| Images.RowInRange | src/types.rs:66-70 | row `y < height` ends within the first `width*height` pixels, so the row slice is in bounds |
| Images.SwapChannelsStep | src/types.rs:72 | reversing one three-byte chunk swaps its first and last byte and nothing else |
| Images.SwapChannelsPixel | src/types.rs:66-73 | after the flip, pixel `p` holds old bytes `3p+2, 3p+1, 3p` at the same position: a per-pixel channel reversal, not a mirror |
| Images.SwapChannelsTail | src/types.rs:61-73 | bytes from `3*width*height` on are untouched |
| Images.SwapChannelsInvolution | src/types.rs:61-73 | flipping twice restores the original bytes |
| FrameCodec.MacropixelToBgr | src/utils.rs:274-284 | one macropixel gives six bytes; the two pixels share the macropixel's chroma, so equal lumas give equal pixels |
| FrameCodec.Rgb24Of | src/utils.rs:267-286 | the conversion writes `6 * (|in| / 4)` bytes; a trailing partial macropixel is dropped by `par_chunks_exact(4)` |
| FrameCodec.Rgb24OfAppend | src/utils.rs:270-272 | converting two buffers in turn equals converting their concatenation, when the first holds whole macropixels |
| FrameCodec.Rgb24OfMacropixel | src/utils.rs:274-284 | macropixel `k` becomes bytes `6k..6k+6` = (b1, g1, r1, b2, g2, r2), where pixel 1 uses (y1, cb, cr) and pixel 2 uses (y2, cb, cr) |
| FrameCodec.Rgb24OfChunk | src/utils.rs:270-285 | output chunk `k` is exactly input chunk `k` converted |
| FrameCodec.Rgb24OfPartialTail | src/utils.rs:271 | fewer than four trailing bytes add nothing to the output |
| FrameCodec.PutPixelPair | src/utils.rs:279-284 | the six stores put both pixels blue first and leave every later byte unchanged |
| FrameCodec.Yuv422ToRgb24 | src/utils.rs:267-286 | under the debug assertion's length, the output prefix is `Rgb24Of(in)` and the bytes after it are unchanged |
| FrameCodec.PairToYuyv | src/utils.rs:295-304 | one pixel pair gives four bytes; the lumas come from the two pixels, so two equal pixels give equal lumas |
| FrameCodec.Yuv422Of | src/utils.rs:288-306 | the conversion writes `4 * (|in| / 6)` bytes |
| FrameCodec.Yuv422OfAppend | src/utils.rs:291-293 | converting two buffers in turn equals converting their concatenation, when the first holds whole pixel pairs |
| FrameCodec.Yuv422OfPair | src/utils.rs:295-304 | pair `k` is read blue first; y1, cb and cr come from the first pixel; the second pixel contributes only y2 |
| FrameCodec.Yuv422OfPartialTail | src/utils.rs:292 | fewer than six trailing bytes add nothing to the output |
| FrameCodec.PutMacropixel | src/utils.rs:301-304 | the four stores write (y1, cb, y2, cr) and leave every later byte unchanged |
| FrameCodec.Rgb24ToYuv422 | src/utils.rs:288-306 | under the debug assertion's length, the output prefix is `Yuv422Of(in)` and the bytes after it are unchanged |
| FrameCodec.RoundTripLength | src/utils.rs:267-306 | converting to 4:2:2 and back keeps `6 * (|in| / 6)` bytes |
| FrameCodec.RoundTripPair | src/utils.rs:274-299 | with mutually inverse formulas, the round trip restores the first pixel of each pair exactly; the second pixel returns with its own luma and the first pixel's chroma |
| Resize.Channels | src/utils.rs:180-184 | the bytes per pixel are positive, at most the three `flip` assumes, and three exactly for RGB |
| Resize.Step | src/utils.rs:244-245 | the step is at least 1; when shrinking it is the floor of `src / dst` (`s*dst <= src < (s+1)*dst`); when enlarging it is 1 |
| Resize.PixelFits | src/utils.rs:253-258 | when the last sampled pixel lies inside the source, every sampled pixel does |
| Resize.FlattenLength | src/utils.rs:247 | `n` chunks of `L` bytes fill `n*L` bytes |
| Resize.FlattenAt | src/utils.rs:247-249 | byte `j` of chunk `y` is byte `y*L + j` of the buffer |
| Resize.SourcePixel | src/utils.rs:252-253 | a sampled source pixel is `ch` bytes |
| Resize.SampledPixels | src/utils.rs:251 | a sampled row has `n` pixels of `ch` bytes each |
| Resize.SampledRow | src/utils.rs:251-259 | a sampled row is `dw*ch` bytes |
| Resize.DownsampledRowOf | src/utils.rs:250 | each output row is `dw*ch` bytes |
| Resize.DownsampledRows | src/utils.rs:247-249 | the output has `m` rows of `dw*ch` bytes |
| Resize.Downsampled | src/utils.rs:241 | the downsampled image is `dh*(dw*ch)` bytes |
| Resize.RowStep | src/utils.rs:247-250 | row `y` lies inside the buffer, and one more row appends the sampled row for source row `y*ys` |
| Resize.DownsampledNext | src/utils.rs:247-250 | the image with `m+1` rows is the image with `m` rows followed by the sampled row for source row `m*ys` |
| Resize.SampledRowAt | src/utils.rs:251-259 | byte `x*ch + c` of a sampled row is byte `c` of source pixel (`x*xs`, `sy`), and that byte lies inside the source |
| Resize.DownsampledRow | src/utils.rs:247-250 | byte `j` of output row `y` is byte `y*dw*ch + j` of the image |
| Resize.DownsampledAt | src/utils.rs:250-258 | output pixel (`x`, `y`) copies the `ch` bytes of source pixel (`x*xs`, `y*ys`) |
| Resize.SampledPixel | src/utils.rs:252-259 | the `ch` bytes of output pixel `x` are the `ch` bytes at its source index |
| Resize.CopyRun | src/utils.rs:257-259 | copying `count` bytes extends the agreeing prefix by the run and leaves later bytes unchanged |
| Resize.FillPixel | src/utils.rs:252-259 | one pixel of the inner loop extends the agreeing prefix by that pixel's `ch` bytes |
| Resize.FillRow | src/utils.rs:249-260 | the per-row closure leaves the bytes before the row unchanged and writes the sampled row for source row `srcY` |
| Resize.FillNextRow | src/utils.rs:249-260 | filling row `y` makes the first `y+1` rows equal the first `y+1` rows of the downsampled image |
| Resize.FillRows | src/utils.rs:247-261 | the chunked walk leaves the buffer equal to `Downsampled` |
| Resize.ResizeFastDownsample | src/utils.rs:234-264 | the result is the `dw*dh*ch`-byte `Downsampled` image, sampled with the computed steps |
| Resize.StepSpan | src/utils.rs:244-252 | when shrinking, the last of `dst` samples taken every `step` pixels is inside the source |
| Resize.SampledInBoundsWhenShrinking | src/utils.rs:241-261 | with `dw <= sw`, `dh <= sh` and `sw*sh*ch` bytes of data, every sampled source index is in bounds |
| Resize.ScaledSize | src/utils.rs:186-194 | the scaled size fits the canvas |
| Resize.ScaledSizeFits | src/utils.rs:187-194 | the width-limited branch is taken iff `ow*nh > oh*nw`; the limited side then equals the canvas side, and the other side is the largest value whose product stays within bounds |
| Resize.ScaleToFit | src/utils.rs:188-194 | scaling the other side by the limiting ratio stays within the canvas and is bracketed by exact products |
| Resize.PadBefore | src/utils.rs:200-203 | the padding before is half the slack, rounded down; an odd extra unit goes after |
| Resize.CanvasRow | src/utils.rs:210-219 | each canvas row is `new_width*ch` bytes |
| Resize.CanvasRows | src/utils.rs:208-210 | the canvas has `m` rows of the row length |
| Resize.Canvas | src/utils.rs:205 | the canvas is `m` row lengths long |
| Resize.CanvasRowAt | src/utils.rs:211-218 | a canvas row byte is the matching resized byte inside the band and image columns, and zero elsewhere |
| Resize.CanvasAt | src/utils.rs:208-210 | canvas row `y` occupies the bytes from `y * rowLength` on |
| Resize.RowMargins | src/utils.rs:205-219 | rows outside the band, and the margins of rows inside it, are zero |
| Resize.RowImage | src/utils.rs:211-218 | inside the band, the run at `pad_left*ch` is row `y - pad_top` of the resized image |
| Resize.PlaceRows | src/utils.rs:208-220 | the chunked walk over the zero canvas leaves it equal to `Canvas` |
| Resize.PlaceRow | src/utils.rs:208-219 | one step of the band loop: the zero row `y` becomes canvas row `y`, and the later rows stay zero |
| Resize.PlacementOf | src/utils.rs:200-203 | the padded image run fits inside each canvas row |
| Resize.ResizeWithPaddingUltraFast | src/utils.rs:174-229 | channels are 3 for RGB and 2 for YUV; the result is a fresh image of the requested size and colour space, with the source timestamp, whose data is `Letterboxed(src)` |
| Resize.ResizeDefined | src/utils.rs:197-261 | the letterboxing runs without a panic iff the scaled width and the channel count are positive and every pixel the downsampler samples lies inside the data |
| Resize.ZeroCanvas | src/utils.rs:205 | the canvas is `new_width*new_height*ch` zero bytes |
| Resize.LetterboxedSize | src/utils.rs:205 | the letterboxed data has exactly `new_width*new_height*channels` bytes |
| Resize.CanvasPixel | src/utils.rs:211-218 | inside the image rectangle, canvas pixel (`x`, `y`) is resized pixel (`x - pad_left`, `y - pad_top`) |
| Resize.CanvasMargin | src/utils.rs:205-220 | outside the image rectangle, every canvas byte is zero |
| Resize.PlacedImage | src/utils.rs:197-218 | inside the rectangle, canvas pixel (`x`, `y`) is source pixel (`(x - pad_left)*x_step`, `(y - pad_top)*y_step`) |
| Resize.LetterboxedImage | src/utils.rs:174-229 | the same, for the letterboxed result at its computed scale |
| Resize.LetterboxedMargin | src/utils.rs:200-220 | every byte of the letterboxed result outside the image rectangle is zero |
| Resize.DownscaleDefined | src/utils.rs:197-261 | a complete source at least as large as the canvas is letterboxed without a panic iff its scaled width is positive |
| Resize.UpscalingOverruns | src/utils.rs:244-258 | a complete source narrower than the canvas that fills its width is sampled past its end, so the letterboxing panics |
| Framing.InferenceInputSize | src/server/server_main.rs:42-45 | the resized frame is 192·192·2 bytes, and the `*3/2` buffer is exactly the 192·192·3 bytes the conversion fills |
| Framing.Inference | src/server/server_main.rs:37-56 | the interpreter runs on the BGR conversion of the 192×192 letterboxed YUV input |
| Framing.EmptyPayloadUndefined | src/server/server_main.rs:88-93 | `inference` on an empty payload panics for any frame scaled to at least one row |
| Framing.Frame | src/server/server_main.rs:99-102 | a response frame is four bytes longer than the encoding |
| Framing.ReadFrame | src/server/server_main.rs:69-84 | a frame is read iff four bytes and the announced length are present, with the payload and rest lengths that follow |
| Framing.FrameRoundTrip | src/server/server_main.rs:97-102 | reading a frame written for a payload under 2^32 bytes gives the payload and what follows |
| Framing.ReadFrameInverse | src/server/server_main.rs:69-84 | every readable frame is the framing of its payload followed by the rest |
| Framing.FrameLengthWraps | src/server/server_main.rs:99 | the `as u32` length announces the size mod 2^32 |
| Framing.Serve | src/server/server_main.rs:68-77 | the top of the loop: at most one answer per four bytes still to arrive, since each answer consumes at least its length prefix |
| Framing.ServeFrame | src/server/server_main.rs:84 | after the length: the header read stage, with the same bound on answers |
| Framing.ServeRequest | src/server/server_main.rs:85 | after the header: the decoding stage, with the same bound on answers |
| Framing.ServePayload | src/server/server_main.rs:88-89 | after decoding: the payload read stage, with the same bound on answers |
| Framing.ServeImage | src/server/server_main.rs:91-94 | with the payload read: `inference` panics unless defined, with the same bound on answers |
| Framing.ServeScores | src/server/server_main.rs:91-102 | with `inference` defined: one framed answer, then the top of the loop, with the same bound on answers |
| Framing.Grown | src/server/server_main.rs:75-77 | the buffer grows to the message length when it is shorter, and otherwise keeps its length |
| Framing.TcpStream.ReadExact | src/server/server_main.rs:70 | `read_exact` yields the next `n` bytes, or fails on a short read |
| Framing.TcpStream.WriteAll | src/server/server_main.rs:101-102 | `write_all` appends the bytes to the output |
| Framing.WriteResponse | src/server/server_main.rs:99-102 | the output gains `Frame(response)` |
| Framing.AnswerImage | src/server/server_main.rs:91-102 | the response echoes the timestamp, and the output gains its frame, as `ServeScores` says |
| Framing.AnswerRequest | src/server/server_main.rs:88-102 | the payload read and the answer agree with `ServePayload` |
| Framing.ReadRequest | src/server/server_main.rs:84-102 | the header read into the buffer front and its decoding agree with `ServeFrame` |
| Framing.ServeOnce | src/server/server_main.rs:69-102 | one loop pass agrees with `Serve` and consumes input whenever it answers |
| Framing.HandleClient | src/server/server_main.rs:58-107 | the output, exchanges and final buffer length are those of `Serve` on the whole input from a 1024-byte buffer |
| Framing.RequestSplit | src/server/server_main.rs:69-72 | the length prefix of a request decodes to its header length |
| Framing.ReadsWholeHeader | src/server/server_main.rs:84-85 | exactly the header bytes go to the decoder, with the buffer grown to the header length |
| Framing.TruncatedRequestUnanswered | src/server/server_main.rs:70-89 | a stream that ends inside a request gets no answer and nothing written |
| Framing.ImageStep | src/server/server_main.rs:91-102 | a payload is answered iff `inference` is defined on it, with its scores and the request's timestamp |
| Framing.PayloadStep | src/server/server_main.rs:88-102 | the payload stage stops, or answers and continues with unread bytes |
| Framing.RequestStep | src/server/server_main.rs:85-102 | the decoding stage stops, or answers and continues |
| Framing.FrameStep | src/server/server_main.rs:84-102 | the header stage stops, or answers and continues |
| Framing.ServeStep | src/server/server_main.rs:69-102 | one pass never shrinks the buffer and grows it to the announced length; it either stops or answers and continues on strictly less input |
| Framing.EchoesTimestamp | src/server/server_main.rs:91-92 | every response carries its request's timestamp |
| Framing.BufferNeverShrinks | src/server/server_main.rs:75-77 | the scratch buffer never shrinks and ends at least as long as the first announced length |
| Framing.WrittenIsFramedResponses | src/server/server_main.rs:97-102 | everything written is the framed responses, in order |
| Framing.ReadFramesInverse | src/server/server_main.rs:101-102 | reading frames back from framed encodings under 2^32 bytes gives the encodings |
| Framing.ClientReadsResponses | src/server/server_main.rs:97-102 | a client reads back exactly the encoded responses, in order |
| Framing.AsWrittenReadsNoPayload | src/server/server_main.rs:88-89 | as written, the payload read consumes nothing; `inference` gets an empty vector and the payload is left in the stream |
| Framing.AsWrittenNeverAnswers | src/server/server_main.rs:88-93 | as written, the first request with a frame of at least one scaled row stops the handler unanswered |
| Framing.SizedServesRequest | src/server/server_main.rs:88-102 | a read sized to `image_num_bytes` answers the request with its payload's scores and continues right after it |
| Framing.PayloadCounterexample | src/server/server_main.rs:88-89 | a 640×480 request with its 614400 payload bytes is unanswered as written and answered by the sized read |
| Capture.EnumRun | src/client/camera/mod.rs:166-179 | the ENUM_FMT loop sees `k` successes and then a failure |
| Capture.Device.Issue | src/client/camera/mod.rs:84 | each `ioctl` call is logged in order and receives the device's next reply |
| Capture.EnumFormats | src/client/camera/mod.rs:159-178 | the loop's requests are ENUM_FMT with indices 0, 1, …, n-1 |
| Capture.ConfigureFollows | src/client/camera/mod.rs:158-218 | the ENUM_FMT loop, S_FMT and G_FMT issue a prefix of their plan; the result is Ok iff the whole plan succeeds outside the loop |
| Capture.InspectFollows | src/client/camera/mod.rs:113-218 | ENUMINPUT, G_FMT and the rest follow their plan in the same sense |
| Capture.InitFollows | src/client/camera/mod.rs:79-219 | the whole of `init_device` follows its plan in the same sense |
| Capture.InitFollowsPlan | src/client/camera/mod.rs:79-219 | `init_device` issues a prefix of QUERYCAP, G_INPUT, ENUMINPUT(index read), G_FMT, ENUM_FMT 0..k, S_FMT(YUYV = 0x56595559, 192, 192), G_FMT |
| Capture.InitOkIffAllAnswered | src/client/camera/mod.rs:79-219 | `init_device` is Ok iff it issues its whole plan and every request outside the ENUM_FMT loop succeeds |
| Capture.InitStopsAtFirstFailure | src/client/camera/mod.rs:79-219 | on Err, the last request issued is the one that failed, and every earlier request outside the loop succeeded |
| Capture.InitEnumeratesUntilFailure | src/client/camera/mod.rs:159-179 | past G_FMT, formats 0..k are all listed, up to and including the first failure |
| Capture.ConfigureFrom | src/client/camera/mod.rs:158-218 | the ENUM_FMT loop, S_FMT and G_FMT issue at least one request and succeed exactly when their last request is answered |
| Capture.InspectInputFrom | src/client/camera/mod.rs:113-218 | ENUMINPUT, G_FMT and the rest succeed exactly when their last request is answered |
| Capture.InitDeviceFrom | src/client/camera/mod.rs:79-219 | `init_device` succeeds exactly when its last request is answered |
| Capture.AllocateFrom | src/client/camera/mod.rs:220-286 | `allocate_and_mmap` issues one to three requests and succeeds exactly when its last one is answered |
| Capture.AllocateMapsQueriedBuffer | src/client/camera/mod.rs:220-286 | four buffers are requested, only buffer 0 is queried, and exactly the queried length is mapped; the result is Ok iff all three steps succeed, and then it is that length |
| Capture.Camera.Mapped | src/client/camera/mod.rs:70-75 | a new camera has `fps == 0` and is not streaming |
| Capture.Camera.New | src/client/camera/mod.rs:32-77 | `new` runs `init_device` and then, only on success, `allocate_and_mmap`; it yields a camera with `fps == 0`, not streaming, holding the mapped length, iff both succeed |
| Capture.Camera.InitDevice | src/client/camera/mod.rs:79-219 | the log gains exactly the requests of `InitDeviceFrom`, and the result is its result |
| Capture.Camera.InspectInput | src/client/camera/mod.rs:113-218 | the log gains exactly the requests of `InspectInputFrom`, and the result is its result |
| Capture.Camera.ConfigureFormat | src/client/camera/mod.rs:158-218 | the log gains exactly the requests of `ConfigureFrom`, and the result is its result |
| Capture.Camera.ListFormats | src/client/camera/mod.rs:159-179 | the loop issues ENUM_FMT 0..k, where `k` successes precede the first failure |
| Capture.Camera.AllocateAndMmap | src/client/camera/mod.rs:220-286 | the log gains exactly the requests of `AllocateFrom`, and the result is its result |
| Capture.Camera.SetFrameRate | src/client/camera/mod.rs:288-314 | issues S_PARM with time per frame 1/`new_fps as u32`; `fps` changes only when it succeeds |
| Capture.Camera.StartCapture | src/client/camera/mod.rs:316-337 | with `fps == 0`, Err and no request; when already streaming, Ok and no request; a STREAMON failure gives Err and no enqueue; otherwise it issues QBUF 0 and returns Ok whatever that returns; `streaming` never changes |
| Capture.Camera.StopCapture | src/client/camera/mod.rs:339-357 | when not streaming (always, since nothing sets the flag), Ok with no request; otherwise STREAMOFF, whose outcome is the result |
| Capture.Camera.CaptureImage | src/client/camera/mod.rs:363-392 | DQBUF 0, then QBUF 0 only if that succeeded; Ok whatever QBUF returns |
| Capture.Camera.EnqueueBuffer | src/client/camera/mod.rs:399-418 | QBUF on buffer 0; the result is its outcome |
| Capture.Camera.Drop | src/client/camera/mod.rs:432-441 | `stop_capture`, then unmapping the stored length |

## Left out

- The colour formulas `ycbcr_to_rgb`, `rgb_to_ycbcr` and `clamp` are `f32` arithmetic. They are the parameters `ToRgb`/`ToYCbCr`, and no property depends on what they compute.
- Resize.ScaledSize: computes `(side as f32 * scale) as i32` with exact rational arithmetic and a floor. The `f32` quotient and product can round to just below an integer and then truncate one lower; this is not modelled.
- Resize.Step: likewise takes the exact floor of `src / dst`, not the `f32` quotient.
- `i32` overflow is not modelled:
  - `original_width * new_height` and `original_height * new_width` (`src/utils.rs:187`);
  - `new_width * new_height * channels`;
  - `dst_width * dst_height * channels`.

  Sizes are unbounded naturals, so the model is exact only where these products fit in `i32`.
- Framing.InferenceDefined: requires width and height below 2^31. The `u32 as i32` casts in `inference` would otherwise make them negative, and what `resize_with_padding_ultra_fast` does with negative sizes is not modelled.
- Images.Image.Flip: requires non-negative width and height. A negative `i32` cast `as usize` becomes close to 2^64. With a zero height the source does nothing. With a negative height and a zero width, every row is the empty slice `data[0..0]`, so the loop runs about 2^64 empty iterations and never panics. With any other negative size, the row arithmetic or the row slice goes out of range and the source panics.
- FrameCodec.Yuv422ToRgb24: requires the debug assertion's output length. In a release build with another length, `zip` converts `min(|in|/4, |out|/6)` macropixels; this is not modelled.
- FrameCodec.Rgb24ToYuv422: likewise requires `|out| == |in| * 2 / 3`.
- `rayon` parallelism: the disjoint `par_chunks_exact*` chunks are filled by sequential loops in chunk order.
- The protobuf codec (`DnnRequest::decode`, `DnnResponse::encode`) and the TFLite interpreter (`copy`, `invoke`, `output`) are function parameters of `Handler`. Encode and interpreter failures (`expect`/`unwrap` panics) are not modelled.
- Networking:
  - `run_server`, the accept loop and the thread per connection are not part of this model;
  - the stream is a byte sequence with a cursor, and `write_all` always succeeds;
  - a short read or a decode failure ends the modelled handler where the source panics the connection's thread.
- Clocks: `SystemTime::now()` in `Image::new` is the parameter `now`. The `Instant` timing in `handle_client` and `capture_image` is dropped, and so is all logging.
- Capture.Camera.New: opening `/dev/video{index}` and the `media_fd < 0` check are not modelled; the caller passes the opened device. A panic is the result `None`.
- Capture.Camera.SetFrameRate: the error message omits the `{:?}` rendering of the driver's error that the source appends.
- The ioctl encodings and the contents of the bindgen `v4l2_*` structs are not modelled. The model keeps only the fields that choose what is requested: input index, format index, pixel format and size, buffer count, buffer index, mapped length and time per frame.
- The `mmap` pointer and the `get_buffer_ptr`/`get_buffer_length` accessors are not modelled; a camera keeps only the mapped length.
- `fmtdesc.index += 1` is a `u32` and would overflow after 2^32 formats. The model's index is unbounded, and the loop ends once the device's script runs out.
- The OpenCV-based code (`resize_with_padding`, `draw_keypoints`, `Image::from_mat`, `Image::to_mat`), the commented-out bilinear resizer, the client application, `server_client.rs`, `main.rs` and `build.rs` are not part of this model.

## Findings

| source | as written | input that shows it | evidently intended | confidence | as-written member | corrected member |
|---|---|---|---|---|---|---|
| src/server/server_main.rs:88-89 | the payload is read into `Vec::with_capacity(image_num_bytes)`, a vector of length 0, so `read_exact` reads nothing. `inference` then runs on an empty vector, whose letterboxing indexes past its end and panics. The payload bytes would otherwise be read as the next length prefix. | a 640×480 request whose header announces 614400 bytes, followed by those 614400 bytes of YUV 4:2:2 | read exactly `image_num_bytes` bytes (a vector of that length) before running `inference` | not executed | Framing.AsWrittenNeverAnswers | Framing.SizedServesRequest |
