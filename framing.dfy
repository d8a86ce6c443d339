/** The per-connection loop of the inference server
    (src/server/server_main.rs, `handle_client`) and the buffer preparation
    of `inference`.

    A connection carries requests framed as a four-byte big-endian length,
    a protobuf `DnnRequest` header of that many bytes, and then the image
    payload; each answer is framed the same way. The protobuf codec and the
    neural network are function parameters; the socket is a byte sequence
    with a read cursor and an output log. */
module Framing {
  import opened Bytes
  import opened Images
  import opened FrameCodec
  import opened Resize

  /** The fields of a decoded `DnnRequest` that the server reads. */
  datatype DnnRequest = DnnRequest(timestamp: int, width: nat, height: nat, imageNumBytes: nat)

  /** `DnnResponse { timestamp, vector }`, the scores being of type `S`. */
  datatype DnnResponse<S> = DnnResponse(timestamp: int, vector: S)

  /** One answered request. */
  datatype Exchange<S> = Exchange(request: DnnRequest, response: DnnResponse<S>)

  /** Side of the square canvas every frame is letterboxed to. */
  const MODEL_SIDE: nat := 192

  /** Length of the scratch buffer when a connection opens. */
  const INITIAL_BUFFER: nat := 1024

  // ---------------------------------------------------------------------
  // inference

  /** Whether `inference` runs to completion on `yuv`: the input length is
      even (its `assert!`), the `u32` sizes survive the `as i32` casts
      unchanged, and the letterboxing to 192 by 192 YUV does not panic. */
  predicate InferenceDefined(yuv: seq<byte>, width: nat, height: nat)
  {
    && |yuv| % 2 == 0
    && width < 0x8000_0000 && height < 0x8000_0000
    && ResizeDefined(|yuv|, width, height, MODEL_SIDE, MODEL_SIDE, Channels(YUV))
  }

  /** The packed BGR buffer `inference` hands to the interpreter. */
  function InferenceInput(yuv: seq<byte>, width: nat, height: nat, toRgb: ToRgb): seq<byte>
    requires InferenceDefined(yuv, width, height)
  {
    Rgb24Of(Letterboxed(yuv, width, height, MODEL_SIDE, MODEL_SIDE, Channels(YUV)), toRgb)
  }

  /** Whatever the frame size, the letterboxed frame is 192 * 192 * 2 bytes
      and the buffer `vec![0; resized.data.len() * 3/2]` that receives its
      conversion is exactly the 192 * 192 * 3 bytes the conversion fills. */
  lemma InferenceInputSize(yuv: seq<byte>, width: nat, height: nat, toRgb: ToRgb)
    requires InferenceDefined(yuv, width, height)
    ensures var resized := Letterboxed(yuv, width, height, MODEL_SIDE, MODEL_SIDE, Channels(YUV));
      && |resized| == MODEL_SIDE * MODEL_SIDE * 2 == 73728
      && |resized| * 3 / 2 == 6 * (|resized| / 4) == 110592
      && |InferenceInput(yuv, width, height, toRgb)| == MODEL_SIDE * MODEL_SIDE * 3
  {
    LetterboxedSize(yuv, width, height, MODEL_SIDE, MODEL_SIDE, Channels(YUV));
  }

  /** `inference(interpreter, yuv_input, (original_width, original_height))`:
      wraps the input in an `Image` (`now` is the clock reading of
      `Image::new`), letterboxes it to 192 by 192 YUV, converts that to
      packed BGR in a buffer of `resized.data.len() * 3 / 2` bytes and runs
      the interpreter `infer` on it. */
  method Inference<S>(infer: seq<byte> -> S, yuvInput: seq<byte>, width: nat, height: nat, toRgb: ToRgb, now: nat)
    returns (scores: S)
    requires InferenceDefined(yuvInput, width, height)
    ensures scores == infer(InferenceInput(yuvInput, width, height, toRgb))
  {
    var data := new byte[|yuvInput|](i requires 0 <= i < |yuvInput| => yuvInput[i]);
    assert data[..] == yuvInput;
    var original := new Image(data, width, height, YUV, now);
    var resized := ResizeWithPaddingUltraFast(original, MODEL_SIDE, MODEL_SIDE, YUV);
    InferenceInputSize(yuvInput, width, height, toRgb);
    var resizedRgb := new byte[resized.data.Length * 3 / 2](_ => 0);
    Yuv422ToRgb24(resized.data[..], resizedRgb, toRgb);
    assert resizedRgb[..] == resizedRgb[.. 6 * (resized.data.Length / 4)];
    scores := infer(resizedRgb[..]);
  }

  /** A request whose payload is empty is never served when its frame is
      scaled to at least one row: the letterboxing samples a pixel of the
      empty data. */
  lemma EmptyPayloadUndefined(width: nat, height: nat)
    requires 0 < ScaledSize(width, height, MODEL_SIDE, MODEL_SIDE).1
    ensures !InferenceDefined([], width, height)
  {
    var r := ScaledSize(width, height, MODEL_SIDE, MODEL_SIDE);
    if 0 < r.0 {
      assert !Fits(0, width, Channels(YUV), Step(width, r.0), Step(height, r.1), r.0, r.1);
    }
  }

  // ---------------------------------------------------------------------
  // Length-prefixed frames

  /** `response_length.to_be_bytes()` followed by the encoded response,
      where `response_length` is `response_buffer.len() as u32`. */
  function Frame(enc: seq<byte>): (f: seq<byte>)
    ensures |f| == 4 + |enc|
  {
    ToBE32(U32(|enc|)) + enc
  }

  /** The reading rule of `handle_client`: the first four bytes are the
      big-endian length `n` of the frame that follows. The result is the
      `n` bytes of the frame and the bytes after it, or `None` when the
      stream ends first. */
  function ReadFrame(s: seq<byte>): (r: Option<(seq<byte>, seq<byte>)>)
    ensures r.Some? ==> 4 <= |s| && |r.value.0| == FromBE32(s[..4]) && |r.value.1| == |s| - 4 - |r.value.0|
    ensures r.None? <==> |s| < 4 || |s| - 4 < FromBE32(s[..4])
  {
    if |s| < 4 then None
    else
      var n := FromBE32(s[..4]);
      if |s| - 4 < n then None else Some((s[4 .. 4 + n], s[4 + n ..]))
  }

  /** A frame whose payload fits a `u32` length is read back as itself,
      leaving whatever follows it. */
  lemma FrameRoundTrip(enc: seq<byte>, rest: seq<byte>)
    requires |enc| < U32_LIMIT
    ensures ReadFrame(Frame(enc) + rest) == Some((enc, rest))
  {
    var s := Frame(enc) + rest;
    assert s[..4] == ToBE32(|enc|);
    FromToBE32(|enc|);
    assert s[4 .. 4 + |enc|] == enc && s[4 + |enc| ..] == rest;
  }

  /** Conversely, every frame that can be read is the framing of its
      payload followed by the rest of the stream. */
  lemma ReadFrameInverse(s: seq<byte>)
    requires ReadFrame(s).Some?
    ensures var (payload, rest) := ReadFrame(s).value; s == Frame(payload) + rest
  {
    var (payload, rest) := ReadFrame(s).value;
    ToFromBE32(s[..4]);
    assert s == s[..4] + payload + rest;
  }

  /** The `as u32` cast of the response length wraps: a response of
      `2^32` bytes or more announces its length modulo `2^32`. */
  lemma FrameLengthWraps(enc: seq<byte>)
    ensures FromBE32(Frame(enc)[..4]) == |enc| % U32_LIMIT
  {
    assert Frame(enc)[..4] == ToBE32(U32(|enc|));
    FromToBE32(U32(|enc|));
  }

  /** What a well-behaved client sends for one request: the header's
      big-endian length, the header, and the image payload. */
  function RequestBytes(header: seq<byte>, payload: seq<byte>): seq<byte>
    requires |header| < U32_LIMIT
  {
    Frame(header) + payload
  }

  // ---------------------------------------------------------------------
  // handle_client

  /** How many payload bytes the loop reads after the header. The source
      reads into `Vec::with_capacity(image_num_bytes)`, a vector of length
      zero, so `read_exact` reads nothing (`EmptyVector`); `ImageBytes`
      reads the `image_num_bytes` the request announces. */
  datatype PayloadRead = EmptyVector | ImageBytes

  function PayloadLength(msg: DnnRequest, read: PayloadRead): nat
  {
    match read
    case EmptyVector => 0
    case ImageBytes => msg.imageNumBytes
  }

  /** `if buffer.len() < message_length { buffer.resize(message_length, 0) }`,
      on lengths. */
  function Grown(bufferLength: nat, messageLength: nat): (r: nat)
    ensures bufferLength <= r && messageLength <= r
    ensures r == bufferLength || r == messageLength
  {
    if bufferLength < messageLength then messageLength else bufferLength
  }

  /** The collaborators of `handle_client` that the model leaves abstract:
      the payload rule, the protobuf decoder and encoder, the interpreter
      and the YUV-to-RGB formula. */
  datatype Handler<!S> = Handler(read: PayloadRead, decode: seq<byte> -> Option<DnnRequest>,
                                encode: DnnResponse<S> -> seq<byte>, infer: seq<byte> -> S, toRgb: ToRgb)

  /** What the handler makes of a connection: the bytes it writes back,
      the requests it answers with their responses, and the length of its
      scratch buffer when it stops. */
  datatype Session<S> = Session(written: seq<byte>, exchanges: seq<Exchange<S>>, bufferLength: nat)

  /** The session that answers `exchange` with a framed response and then
      goes on as `next`. */
  function Then<S>(h: Handler<S>, exchange: Exchange<S>, next: Session<S>): Session<S>
  {
    Session(Frame(h.encode(exchange.response)) + next.written, [exchange] + next.exchanges, next.bufferLength)
  }

  // The loop of `handle_client` as mutually recursive stages, one per
  // step of its body. Each answered request has consumed at least its
  // four-byte length, so a session answers at most a quarter as many
  // requests as bytes arrive. A short read, a decoding failure or a panic in
  // `inference` stops the handler (its `expect`s panic the connection's
  // thread); the scratch buffer keeps the length it has then.

  /** The top of the loop on the bytes `rest` still to arrive, with a
      scratch buffer of `bufferLength` bytes: read the four-byte length,
      grow the buffer to it. */
  function Serve<S>(h: Handler<S>, rest: seq<byte>, bufferLength: nat): (r: Session<S>)
    ensures 4 * |r.exchanges| <= |rest|
    decreases |rest|, 5
  {
    if |rest| < 4 then Session([], [], bufferLength)
    else
      var n := FromBE32(rest[..4]);
      ServeFrame(h, n, rest[4..], Grown(bufferLength, n))
  }

  /** After the length `n`, with `body` still to arrive and a buffer of
      `grown` bytes: read the `n` header bytes into the buffer. */
  function ServeFrame<S>(h: Handler<S>, n: nat, body: seq<byte>, grown: nat): (r: Session<S>)
    ensures 4 * |r.exchanges| <= |body| + 4
    decreases |body| + 1, 4
  {
    if |body| < n then Session([], [], grown)
    else ServeRequest(h, body[..n], body[n..], grown)
  }

  /** After the header: decode it. */
  function ServeRequest<S>(h: Handler<S>, header: seq<byte>, after: seq<byte>, grown: nat): (r: Session<S>)
    ensures 4 * |r.exchanges| <= |after| + 4
    decreases |after| + 1, 3
  {
    match h.decode(header)
    case None => Session([], [], grown)
    case Some(msg) => ServePayload(h, msg, after, grown)
  }

  /** After decoding `msg`: read the payload. */
  function ServePayload<S>(h: Handler<S>, msg: DnnRequest, after: seq<byte>, grown: nat): (r: Session<S>)
    ensures 4 * |r.exchanges| <= |after| + 4
    decreases |after| + 1, 2
  {
    var k := PayloadLength(msg, h.read);
    if |after| < k then Session([], [], grown)
    else ServeImage(h, msg, after[..k], after[k..], grown)
  }

  /** With the payload `yuv` read: `inference` panics unless it is
      defined on `yuv` and the frame size of `msg`. */
  function ServeImage<S>(h: Handler<S>, msg: DnnRequest, yuv: seq<byte>, after: seq<byte>, grown: nat): (r: Session<S>)
    ensures 4 * |r.exchanges| <= |after| + 4
    decreases |after| + 1, 1
  {
    if !InferenceDefined(yuv, msg.width, msg.height) then Session([], [], grown)
    else ServeScores(h, msg, yuv, after, grown)
  }

  /** With `inference` defined: run it, write the framed response and go
      back to the top of the loop on `after`. */
  function ServeScores<S>(h: Handler<S>, msg: DnnRequest, yuv: seq<byte>, after: seq<byte>, grown: nat): (r: Session<S>)
    requires InferenceDefined(yuv, msg.width, msg.height)
    ensures 4 * |r.exchanges| <= |after| + 4
    decreases |after| + 1, 0
  {
    var scores := h.infer(InferenceInput(yuv, msg.width, msg.height, h.toRgb));
    Then(h, Exchange(msg, DnnResponse(msg.timestamp, scores)), Serve(h, after, grown))
  }

  /** A TCP connection: `input` is every byte the peer sends, `pos` how far
      the server has read, `output` what it has written. */
  class TcpStream {
    var input: seq<byte>
    var pos: nat
    var output: seq<byte>

    predicate Valid()
      reads this`input, this`pos
    {
      pos <= |input|
    }

    /** The bytes not read yet. */
    function Pending(): seq<byte>
      reads this`input, this`pos
      requires Valid()
    {
      input[pos..]
    }

    constructor (input: seq<byte>)
      ensures Valid() && this.input == input && pos == 0 && output == []
    {
      this.input := input;
      this.pos := 0;
      this.output := [];
    }

    /** `read_exact` into a buffer of `n` bytes: the next `n` bytes, or a
        failure that consumes what is left when fewer arrive. */
    method ReadExact(n: nat) returns (r: Option<seq<byte>>)
      requires Valid()
      modifies this
      ensures Valid() && input == old(input) && output == old(output)
      ensures n <= |old(Pending())| ==> r == Some(old(Pending())[..n]) && Pending() == old(Pending())[n..]
      ensures |old(Pending())| < n ==> r == None && Pending() == []
    {
      if pos + n <= |input| {
        ghost var before := input[pos..];
        assert before[..n] == input[pos .. pos + n] && before[n..] == input[pos + n ..];
        r := Some(input[pos .. pos + n]);
        pos := pos + n;
      } else {
        r := None;
        pos := |input|;
      }
    }

    /** `write_all`: appends `bytes` to what the peer receives. */
    method WriteAll(bytes: seq<byte>)
      requires Valid()
      modifies this
      ensures Valid() && input == old(input) && pos == old(pos) && output == old(output) + bytes
    {
      output := output + bytes;
    }
  }

  /** The two `write_all` calls that send an encoded response: its length
      as four big-endian bytes, then the response itself. */
  method WriteResponse(stream: TcpStream, responseBuffer: seq<byte>)
    requires stream.Valid()
    modifies stream
    ensures stream.Valid() && stream.input == old(stream.input) && stream.pos == old(stream.pos)
    ensures stream.output == old(stream.output) + Frame(responseBuffer)
  {
    stream.WriteAll(ToBE32(U32(|responseBuffer|)));
    stream.WriteAll(responseBuffer);
  }

  /** Running `inference` on the payload `yuv` (`now` is the clock reading
      of its `Image::new`) and writing the framed response: the stage
      `ServeScores`, up to the next top of the loop. Returns the request
      answered. */
  method AnswerImage<S>(h: Handler<S>, stream: TcpStream, msg: DnnRequest, yuv: seq<byte>, grown: nat, now: nat)
    returns (answered: Exchange<S>)
    requires stream.Valid() && InferenceDefined(yuv, msg.width, msg.height)
    modifies stream
    ensures stream.Valid() && stream.input == old(stream.input) && stream.pos == old(stream.pos)
    ensures stream.output == old(stream.output) + Frame(h.encode(answered.response))
    ensures ServeScores(h, msg, yuv, stream.Pending(), grown) == Then(h, answered, Serve(h, stream.Pending(), grown))
  {
    var vector := Inference(h.infer, yuv, msg.width, msg.height, h.toRgb, now);
    var response := DnnResponse(msg.timestamp, vector);
    WriteResponse(stream, h.encode(response));
    answered := Exchange(msg, response);
  }

  /** Reading the payload of `msg`, checking that `inference` is defined on
      it and going on as `AnswerImage`: the stages `ServePayload` and
      `ServeImage`, up to the next top of the loop. */
  method AnswerRequest<S>(h: Handler<S>, stream: TcpStream, msg: DnnRequest, grown: nat, now: nat)
    returns (answered: Option<Exchange<S>>)
    requires stream.Valid()
    modifies stream
    ensures stream.Valid() && stream.input == old(stream.input)
    ensures answered.None? ==>
      stream.output == old(stream.output) && ServePayload(h, msg, old(stream.Pending()), grown) == Session([], [], grown)
    ensures answered.Some? ==>
      && |stream.Pending()| <= |old(stream.Pending())|
      && stream.output == old(stream.output) + Frame(h.encode(answered.value.response))
      && ServePayload(h, msg, old(stream.Pending()), grown) == Then(h, answered.value, Serve(h, stream.Pending(), grown))
  {
    var imageVec := stream.ReadExact(PayloadLength(msg, h.read));
    if imageVec.None? || !InferenceDefined(imageVec.value, msg.width, msg.height) {
      return None;
    }
    var exchange := AnswerImage(h, stream, msg, imageVec.value, grown, now);
    answered := Some(exchange);
  }

  /** Reading the `n` header bytes into the front of the scratch buffer and
      decoding them, then going on as `AnswerRequest`: the stages
      `ServeFrame` and `ServeRequest`. */
  method ReadRequest<S>(h: Handler<S>, stream: TcpStream, n: nat, buffer: seq<byte>, now: nat)
    returns (answered: Option<Exchange<S>>, grown: seq<byte>)
    requires stream.Valid() && n <= |buffer|
    modifies stream
    ensures stream.Valid() && stream.input == old(stream.input) && |grown| == |buffer|
    ensures answered.None? ==>
      stream.output == old(stream.output) && ServeFrame(h, n, old(stream.Pending()), |buffer|) == Session([], [], |buffer|)
    ensures answered.Some? ==>
      && |stream.Pending()| < |old(stream.Pending())| + 1
      && stream.output == old(stream.output) + Frame(h.encode(answered.value.response))
      && ServeFrame(h, n, old(stream.Pending()), |buffer|) == Then(h, answered.value, Serve(h, stream.Pending(), |buffer|))
  {
    ghost var body := stream.Pending();
    grown := buffer;
    var header := stream.ReadExact(n);
    if header.None? {
      return None, grown;
    }
    grown := header.value + grown[n..];
    assert grown[..n] == header.value == body[..n];
    var message := h.decode(grown[..n]);
    if message.None? {
      return None, grown;
    }
    answered := AnswerRequest(h, stream, message.value, |grown|, now);
  }

  /** The body of the `handle_client` loop on a scratch buffer of
      `|buffer|` bytes, where `now` is the clock reading of the
      `Image::new` inside `inference`: it is the stage `Serve`, up to the
      next top of the loop. Returns the request answered, or `None` when
      the handler stops, and the scratch buffer it leaves. */
  method ServeOnce<S>(h: Handler<S>, stream: TcpStream, buffer: seq<byte>, now: nat)
    returns (answered: Option<Exchange<S>>, grown: seq<byte>)
    requires stream.Valid()
    modifies stream
    ensures stream.Valid() && stream.input == old(stream.input)
    ensures answered.None? ==>
      stream.output == old(stream.output) && Serve(h, old(stream.Pending()), |buffer|) == Session([], [], |grown|)
    ensures answered.Some? ==>
      && |stream.Pending()| < |old(stream.Pending())|
      && stream.output == old(stream.output) + Frame(h.encode(answered.value.response))
      && Serve(h, old(stream.Pending()), |buffer|) == Then(h, answered.value, Serve(h, stream.Pending(), |grown|))
  {
    ghost var rest := stream.Pending();
    grown := buffer;
    var lengthBuffer := stream.ReadExact(4);
    if lengthBuffer.None? {
      return None, grown;
    }
    var messageLength := FromBE32(lengthBuffer.value);
    assert lengthBuffer.value == rest[..4];
    if |grown| < messageLength {
      grown := Bytes.Resize(grown, messageLength);
    }
    answered, grown := ReadRequest(h, stream, messageLength, grown, now);
  }

  /** Answering `exchange` moves its framed response and itself from the
      session still to come to what is already written and answered. */
  lemma AfterAnswer<S>(h: Handler<S>, out: seq<byte>, written: seq<byte>, exchanges: seq<Exchange<S>>,
                       exchange: Exchange<S>, next: Session<S>)
    ensures var frame, s := Frame(h.encode(exchange.response)), Then(h, exchange, next);
      && (out + written) + frame == out + (written + frame)
      && Session(written + s.written, exchanges + s.exchanges, s.bufferLength)
         == Session((written + frame) + next.written, (exchanges + [exchange]) + next.exchanges, next.bufferLength)
  {
    var frame := Frame(h.encode(exchange.response));
    assert written + (frame + next.written) == (written + frame) + next.written;
    assert exchanges + ([exchange] + next.exchanges) == (exchanges + [exchange]) + next.exchanges;
  }

  /** `handle_client(stream)`: serves requests until a stage stops. The
      source reads the payload as `EmptyVector`; `h.read` selects the
      payload rule. Returns the exchanges answered and the final length of
      the scratch buffer. */
  method HandleClient<S>(h: Handler<S>, stream: TcpStream, now: nat)
    returns (exchanges: seq<Exchange<S>>, bufferLength: nat)
    requires stream.Valid()
    modifies stream
    ensures stream.Valid() && stream.input == old(stream.input)
    ensures var s := Serve(h, old(stream.Pending()), INITIAL_BUFFER);
      stream.output == old(stream.output) + s.written && exchanges == s.exchanges && bufferLength == s.bufferLength
  {
    var buffer := Zeros(INITIAL_BUFFER);
    exchanges := [];
    ghost var written: seq<byte> := [];
    ghost var total := Serve(h, stream.Pending(), INITIAL_BUFFER);
    while true
      invariant stream.Valid() && stream.input == old(stream.input)
      invariant stream.output == old(stream.output) + written
      invariant var s := Serve(h, stream.Pending(), |buffer|);
        total == Session(written + s.written, exchanges + s.exchanges, s.bufferLength)
      decreases |stream.Pending()|
    {
      var answered;
      answered, buffer := ServeOnce(h, stream, buffer, now);
      if answered.None? {
        assert written + [] == written && exchanges + [] == exchanges;
        return exchanges, |buffer|;
      }
      ghost var frame := Frame(h.encode(answered.value.response));
      AfterAnswer(h, old(stream.output), written, exchanges, answered.value, Serve(h, stream.Pending(), |buffer|));
      exchanges := exchanges + [answered.value];
      written := written + frame;
    }
  }

  // ---------------------------------------------------------------------
  // What the loop does with well-formed and truncated requests

  /** The bytes a request occupies on the wire split as the loop reads
      them: the length prefix announces `|header|`, then come the header
      and whatever follows it. */
  lemma RequestSplit(header: seq<byte>, payload: seq<byte>, rest: seq<byte>)
    requires |header| < U32_LIMIT
    ensures var s := RequestBytes(header, payload) + rest;
      && 4 <= |s| && FromBE32(s[..4]) == |header|
      && s[4..][..|header|] == header && s[4..][|header|..] == payload + rest
  {
    var s := RequestBytes(header, payload) + rest;
    assert s[..4] == ToBE32(|header|);
    FromToBE32(|header|);
    assert s[4..] == header + (payload + rest);
  }

  /** Exactly the `|header|` bytes after the length prefix are handed to
      the decoder, and the buffer grows to hold them; the bytes after the
      header are left for the payload read. */
  lemma ReadsWholeHeader<S>(h: Handler<S>, header: seq<byte>, payload: seq<byte>, rest: seq<byte>, bufferLength: nat)
    requires |header| < U32_LIMIT
    ensures Serve(h, RequestBytes(header, payload) + rest, bufferLength)
            == ServeRequest(h, header, payload + rest, Grown(bufferLength, |header|))
  {
    RequestSplit(header, payload, rest);
  }

  /** A stream that ends before a request is complete gets no answer to it
      and nothing written back: a short read of the length prefix, of the
      header or of the payload ends the handler. */
  lemma TruncatedRequestUnanswered<S>(h: Handler<S>, header: seq<byte>, msg: DnnRequest, payload: seq<byte>,
                                      cut: nat, bufferLength: nat)
    requires |header| < U32_LIMIT && h.decode(header) == Some(msg) && |payload| == PayloadLength(msg, h.read)
    requires cut < |RequestBytes(header, payload)|
    ensures var s := Serve(h, RequestBytes(header, payload)[..cut], bufferLength);
      s.written == [] && s.exchanges == []
  {
    var whole := RequestBytes(header, payload);
    var p := whole[..cut];
    if 4 <= cut {
      RequestSplit(header, payload, []);
      assert whole + [] == whole;
      assert p[..4] == whole[..4];
      var n := |header|;
      var grown := Grown(bufferLength, n);
      if n <= cut - 4 {
        var body := p[4..];
        assert body[..n] == header by {
          assert body[..n] == whole[4..][..n];
        }
        assert body[n..] == payload[..cut - 4 - n] by {
          assert body[n..] == (whole[4..][n..])[..cut - 4 - n];
        }
        assert Serve(h, p, bufferLength) == ServeFrame(h, n, body, grown);
        assert ServeFrame(h, n, body, grown) == ServeRequest(h, header, body[n..], grown);
        assert ServeRequest(h, header, body[n..], grown) == ServePayload(h, msg, body[n..], grown);
      } else {
        assert Serve(h, p, bufferLength) == ServeFrame(h, n, p[4..], grown);
      }
    }
  }

  /** The last stage of one pass: a payload `inference` accepts is
      answered with its scores and the request's own timestamp, and the
      loop goes on with `after`; any other payload ends the handler. */
  lemma ImageStep<S>(h: Handler<S>, msg: DnnRequest, yuv: seq<byte>, after: seq<byte>, grown: nat)
    returns (answered: Option<Exchange<S>>)
    ensures answered.Some? <==> InferenceDefined(yuv, msg.width, msg.height)
    ensures answered.None? ==> ServeImage(h, msg, yuv, after, grown) == Session([], [], grown)
    ensures answered.Some? ==>
      && answered.value == Exchange(msg, DnnResponse(msg.timestamp, h.infer(InferenceInput(yuv, msg.width, msg.height, h.toRgb))))
      && ServeImage(h, msg, yuv, after, grown) == Then(h, answered.value, Serve(h, after, grown))
  {
    answered := None;
    if InferenceDefined(yuv, msg.width, msg.height) {
      answered := Some(Exchange(msg, DnnResponse(msg.timestamp, h.infer(InferenceInput(yuv, msg.width, msg.height, h.toRgb)))));
    }
  }

  /** The payload stage of one pass, with what it leaves unread. */
  lemma PayloadStep<S>(h: Handler<S>, msg: DnnRequest, after: seq<byte>, grown: nat)
    returns (answered: Option<(Exchange<S>, seq<byte>)>)
    ensures answered.None? ==> ServePayload(h, msg, after, grown) == Session([], [], grown)
    ensures answered.Some? ==>
      var (exchange, unread) := answered.value;
      && |unread| <= |after| && exchange.response.timestamp == exchange.request.timestamp
      && ServePayload(h, msg, after, grown) == Then(h, exchange, Serve(h, unread, grown))
  {
    answered := None;
    var k := PayloadLength(msg, h.read);
    if k <= |after| {
      var image := ImageStep(h, msg, after[..k], after[k..], grown);
      if image.Some? {
        answered := Some((image.value, after[k..]));
      }
    }
  }

  /** The decoding stage of one pass. */
  lemma RequestStep<S>(h: Handler<S>, header: seq<byte>, after: seq<byte>, grown: nat)
    returns (answered: Option<(Exchange<S>, seq<byte>)>)
    ensures answered.None? ==> ServeRequest(h, header, after, grown) == Session([], [], grown)
    ensures answered.Some? ==>
      var (exchange, unread) := answered.value;
      && |unread| <= |after| && exchange.response.timestamp == exchange.request.timestamp
      && ServeRequest(h, header, after, grown) == Then(h, exchange, Serve(h, unread, grown))
  {
    answered := None;
    if h.decode(header).Some? {
      answered := PayloadStep(h, h.decode(header).value, after, grown);
    }
  }

  /** The header stage of one pass. */
  lemma FrameStep<S>(h: Handler<S>, n: nat, body: seq<byte>, grown: nat)
    returns (answered: Option<(Exchange<S>, seq<byte>)>)
    ensures answered.None? ==> ServeFrame(h, n, body, grown) == Session([], [], grown)
    ensures answered.Some? ==>
      var (exchange, unread) := answered.value;
      && |unread| <= |body| && exchange.response.timestamp == exchange.request.timestamp
      && ServeFrame(h, n, body, grown) == Then(h, exchange, Serve(h, unread, grown))
  {
    answered := None;
    if n <= |body| {
      answered := RequestStep(h, body[..n], body[n..], grown);
    }
  }

  /** One pass of the loop body, spelt out: the session on `rest` stops
      at once with the buffer at `grown` bytes, or answers the request in
      the first frame and goes on with the bytes after that request. The
      buffer only grows, at least to the first length prefix, and the
      answer echoes the request's timestamp. */
  lemma ServeStep<S>(h: Handler<S>, rest: seq<byte>, bufferLength: nat)
    returns (answered: Option<(Exchange<S>, seq<byte>)>, grown: nat)
    ensures bufferLength <= grown && (4 <= |rest| ==> FromBE32(rest[..4]) <= grown)
    ensures answered.None? ==> Serve(h, rest, bufferLength) == Session([], [], grown)
    ensures answered.Some? ==>
      var (exchange, unread) := answered.value;
      && |unread| < |rest| && exchange.response.timestamp == exchange.request.timestamp
      && Serve(h, rest, bufferLength) == Then(h, exchange, Serve(h, unread, grown))
  {
    answered, grown := None, bufferLength;
    if 4 <= |rest| {
      grown := Grown(bufferLength, FromBE32(rest[..4]));
      answered := FrameStep(h, FromBE32(rest[..4]), rest[4..], grown);
    }
  }

  /** Every answer carries the timestamp of the request it answers. */
  lemma {:induction false} EchoesTimestamp<S>(h: Handler<S>, rest: seq<byte>, bufferLength: nat)
    ensures forall e <- Serve(h, rest, bufferLength).exchanges :: e.response.timestamp == e.request.timestamp
    decreases |rest|
  {
    var answered, grown := ServeStep(h, rest, bufferLength);
    if answered.Some? {
      EchoesTimestamp(h, answered.value.1, grown);
    }
  }

  /** The scratch buffer starts at `bufferLength` bytes and never shrinks,
      and it ends at least as long as the first length prefix announces. */
  lemma {:induction false} BufferNeverShrinks<S>(h: Handler<S>, rest: seq<byte>, bufferLength: nat)
    ensures bufferLength <= Serve(h, rest, bufferLength).bufferLength
    ensures 4 <= |rest| ==> FromBE32(rest[..4]) <= Serve(h, rest, bufferLength).bufferLength
    decreases |rest|
  {
    var answered, grown := ServeStep(h, rest, bufferLength);
    if answered.Some? {
      BufferNeverShrinks(h, answered.value.1, grown);
    }
  }

  // ---------------------------------------------------------------------
  // What the client reads back

  /** The encoded responses to `exchanges`, in order. */
  function Responses<S>(h: Handler<S>, exchanges: seq<Exchange<S>>): (r: seq<seq<byte>>)
    ensures |r| == |exchanges|
    ensures forall i :: 0 <= i < |r| ==> r[i] == h.encode(exchanges[i].response)
  {
    seq(|exchanges|, i requires 0 <= i < |exchanges| => h.encode(exchanges[i].response))
  }

  /** The frames of `encs`, one after the other. */
  function Framed(encs: seq<seq<byte>>): seq<byte>
  {
    if encs == [] then [] else Frame(encs[0]) + Framed(encs[1..])
  }

  /** A client reading frames until the stream ends: the payloads of the
      frames, or `None` when the stream ends inside one. */
  function ReadFrames(s: seq<byte>): (r: Option<seq<seq<byte>>>)
    decreases |s|
  {
    if s == [] then Some([])
    else
      match ReadFrame(s)
      case None => None
      case Some((payload, rest)) =>
        match ReadFrames(rest)
        case None => None
        case Some(payloads) => Some([payload] + payloads)
  }

  /** Everything the handler writes is the framed responses to the
      requests it answers, in order. */
  lemma {:induction false} WrittenIsFramedResponses<S>(h: Handler<S>, rest: seq<byte>, bufferLength: nat)
    ensures var s := Serve(h, rest, bufferLength); s.written == Framed(Responses(h, s.exchanges))
    decreases |rest|
  {
    var answered, grown := ServeStep(h, rest, bufferLength);
    if answered.Some? {
      var (exchange, after) := answered.value;
      var s, next := Serve(h, rest, bufferLength), Serve(h, after, grown);
      WrittenIsFramedResponses(h, after, grown);
      assert Responses(h, s.exchanges)[1..] == Responses(h, next.exchanges);
    }
  }

  /** A client reads the framed encodings back one by one, as long as each
      is shorter than `2^32` bytes. */
  lemma {:induction false} ReadFramesInverse(encs: seq<seq<byte>>)
    requires forall e <- encs :: |e| < U32_LIMIT
    ensures ReadFrames(Framed(encs)) == Some(encs)
    decreases |encs|
  {
    if encs != [] {
      FrameRoundTrip(encs[0], Framed(encs[1..]));
      ReadFramesInverse(encs[1..]);
      assert [encs[0]] + encs[1..] == encs;
    }
  }

  /** A client reads back exactly the encoded responses, in order, when
      none of them reaches `2^32` bytes. */
  lemma ClientReadsResponses<S>(h: Handler<S>, rest: seq<byte>, bufferLength: nat)
    requires forall e <- Serve(h, rest, bufferLength).exchanges :: |h.encode(e.response)| < U32_LIMIT
    ensures var s := Serve(h, rest, bufferLength); ReadFrames(s.written) == Some(Responses(h, s.exchanges))
  {
    var s := Serve(h, rest, bufferLength);
    WrittenIsFramedResponses(h, rest, bufferLength);
    forall e <- Responses(h, s.exchanges)
      ensures |e| < U32_LIMIT
    {
      var i :| 0 <= i < |s.exchanges| && e == Responses(h, s.exchanges)[i];
      assert s.exchanges[i] in s.exchanges;
    }
    ReadFramesInverse(Responses(h, s.exchanges));
  }

  // ---------------------------------------------------------------------
  // The payload read

  /** As written, the payload read targets a vector of length zero: it
      consumes nothing, `inference` runs on the empty vector, and the
      payload bytes are left to be read as the next length prefix. */
  lemma AsWrittenReadsNoPayload<S>(h: Handler<S>, header: seq<byte>, msg: DnnRequest, payload: seq<byte>,
                                   rest: seq<byte>, bufferLength: nat)
    requires |header| < U32_LIMIT && h.decode(header) == Some(msg) && h.read == EmptyVector
    ensures Serve(h, RequestBytes(header, payload) + rest, bufferLength)
            == ServeImage(h, msg, [], payload + rest, Grown(bufferLength, |header|))
  {
    ReadsWholeHeader(h, header, payload, rest, bufferLength);
    assert (payload + rest)[..0] == [] && (payload + rest)[0..] == payload + rest;
  }

  /** Hence, as written, the handler answers no request whose frame is
      scaled to at least one row: it stops at the first one, having
      written nothing. */
  lemma AsWrittenNeverAnswers<S>(h: Handler<S>, header: seq<byte>, msg: DnnRequest, payload: seq<byte>,
                                 rest: seq<byte>, bufferLength: nat)
    requires |header| < U32_LIMIT && h.decode(header) == Some(msg) && h.read == EmptyVector
    requires 0 < ScaledSize(msg.width, msg.height, MODEL_SIDE, MODEL_SIDE).1
    ensures Serve(h, RequestBytes(header, payload) + rest, bufferLength)
            == Session([], [], Grown(bufferLength, |header|))
  {
    AsWrittenReadsNoPayload(h, header, msg, payload, rest, bufferLength);
    EmptyPayloadUndefined(msg.width, msg.height);
  }

  /** Reading the `image_num_bytes` the request announces, a request whose
      payload suits `inference` is answered with the scores of that
      payload, and the loop goes on right after it. */
  lemma SizedServesRequest<S>(h: Handler<S>, header: seq<byte>, msg: DnnRequest, payload: seq<byte>,
                              rest: seq<byte>, bufferLength: nat)
    requires |header| < U32_LIMIT && h.decode(header) == Some(msg) && h.read == ImageBytes
    requires |payload| == msg.imageNumBytes && InferenceDefined(payload, msg.width, msg.height)
    ensures var scores := h.infer(InferenceInput(payload, msg.width, msg.height, h.toRgb));
      Serve(h, RequestBytes(header, payload) + rest, bufferLength)
      == Then(h, Exchange(msg, DnnResponse(msg.timestamp, scores)), Serve(h, rest, Grown(bufferLength, |header|)))
  {
    var grown := Grown(bufferLength, |header|);
    ReadsWholeHeader(h, header, payload, rest, bufferLength);
    assert ServeRequest(h, header, payload + rest, grown) == ServePayload(h, msg, payload + rest, grown);
    assert (payload + rest)[..|payload|] == payload && (payload + rest)[|payload|..] == rest;
    assert ServePayload(h, msg, payload + rest, grown) == ServeImage(h, msg, payload, rest, grown);
    var answered := ImageStep(h, msg, payload, rest, grown);
  }

  /** A 640 by 480 frame sent with its 614400 bytes of YUV 4:2:2: the
      handler as written answers nothing, while reading the announced
      payload answers it. */
  lemma PayloadCounterexample<S>(h: Handler<S>, header: seq<byte>, timestamp: int, payload: seq<byte>, rest: seq<byte>)
    requires |header| < U32_LIMIT && h.decode(header) == Some(DnnRequest(timestamp, 640, 480, 614400))
    requires |payload| == 614400
    ensures Serve(h.(read := EmptyVector), RequestBytes(header, payload) + rest, INITIAL_BUFFER).exchanges == []
    ensures var answered := Serve(h.(read := ImageBytes), RequestBytes(header, payload) + rest, INITIAL_BUFFER).exchanges;
      && 1 <= |answered|
      && answered[0] == Exchange(DnnRequest(timestamp, 640, 480, 614400),
                                 DnnResponse(timestamp, h.infer(InferenceInput(payload, 640, 480, h.toRgb))))
  {
    var msg := DnnRequest(timestamp, 640, 480, 614400);
    assert ScaledSize(640, 480, MODEL_SIDE, MODEL_SIDE) == (192, 144);
    AsWrittenNeverAnswers(h.(read := EmptyVector), header, msg, payload, rest, INITIAL_BUFFER);
    DownscaleDefined(|payload|, 640, 480, MODEL_SIDE, MODEL_SIDE, Channels(YUV));
    SizedServesRequest(h.(read := ImageBytes), header, msg, payload, rest, INITIAL_BUFFER);
  }
}
