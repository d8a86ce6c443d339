/** The capture side of `src/client/camera/mod.rs`: a `Camera` drives a
    Video4Linux2 device through the memory-mapped streaming protocol. The
    device is modelled as an object that logs every request it receives and
    answers it from a script fixed when it is created: the reply to the
    n-th request is the n-th entry of the script, and once the script has
    run out every request fails. Since the script is arbitrary, everything
    proved here holds whatever the device answers. */
module Capture {
  import opened Bytes

  /** The requests the camera issues: the V4L2 ioctls it uses, plus the
      `mmap` and `munmap` of the capture buffer. */
  datatype Request =
    | QueryCap                                           // VIDIOC_QUERYCAP
    | GetInput                                           // VIDIOC_G_INPUT
    | EnumInput(index: nat)                              // VIDIOC_ENUMINPUT
    | GetFormat                                          // VIDIOC_G_FMT
    | EnumFormat(index: nat)                             // VIDIOC_ENUM_FMT
    | SetFormat(pixelFormat: nat, width: nat, height: nat) // VIDIOC_S_FMT
    | RequestBuffers(count: nat)                         // VIDIOC_REQBUFS, MMAP memory
    | QueryBuffer(index: nat)                            // VIDIOC_QUERYBUF
    | Map(length: nat)                                   // mmap of the queried buffer
    | SetParm(numerator: nat, denominator: nat)          // VIDIOC_S_PARM, time per frame
    | StreamOn                                           // VIDIOC_STREAMON
    | StreamOff                                          // VIDIOC_STREAMOFF
    | Dequeue(index: nat)                                // VIDIOC_DQBUF
    | Enqueue(index: nat)                                // VIDIOC_QBUF
    | Unmap(length: nat)                                 // munmap

  /** A device's answer: success or failure, and the number it reports
      (the current input for G_INPUT, the buffer length for QUERYBUF). */
  datatype Reply = Reply(ok: bool, value: nat)

  /** What a sequence of requests did: the requests, in order, and the
      outcome returned to the caller. */
  datatype Issued<T> = Issued(requests: seq<Request>, result: Result<T>)

  /** The pixel format `init_device` asks for: the V4L2 fourcc `YUYV`
      ('Y', 'U', 'Y', 'V' read as a little-endian `u32`), the
      (Y1, Cb, Y2, Cr) layout the frame codec reads. */
  const PIXEL_FORMAT: nat := 0x56595559
  /** The frame side `init_device` asks for. */
  const FRAME_SIDE: nat := 192
  /** The number of buffers requested from the driver. */
  const BUFFER_COUNT: nat := 4

  /** Rust's `i32`, the type of the frame rate. */
  type i32 = x: int | -0x8000_0000 <= x < 0x8000_0000

  /** The reply the script gives to the request at position `i`. */
  function ReplyAt(script: seq<Reply>, i: nat): (r: Reply)
    ensures i < |script| ==> r == script[i]
    ensures |script| <= i ==> !r.ok
  {
    if i < |script| then script[i] else Reply(false, 0)
  }

  class Device {
    /** The answers, in the order of the requests. */
    const script: seq<Reply>
    /** Every request received so far. */
    var log: seq<Request>

    constructor (script: seq<Reply>)
      ensures this.script == script && log == []
    {
      this.script := script;
      log := [];
    }

    /** The reply the next request will get. */
    function Next(): Reply
      reads this
    {
      ReplyAt(script, |log|)
    }

    /** Sends one request and returns the device's answer to it. */
    method Issue(request: Request) returns (reply: Reply)
      modifies this
      ensures log == old(log) + [request]
      ensures reply == old(Next())
    {
      reply := Next();
      log := log + [request];
    }
  }

  // ---------------------------------------------------------------------
  // init_device

  /** The number of consecutive successful replies from position `at`: the
      number of formats the ENUM_FMT loop lists before its first failure. */
  function EnumRun(script: seq<Reply>, at: nat): (k: nat)
    ensures forall j :: at <= j < at + k ==> ReplyAt(script, j).ok
    ensures !ReplyAt(script, at + k).ok
    decreases |script| - at
  {
    if ReplyAt(script, at).ok then 1 + EnumRun(script, at + 1) else 0
  }

  /** ENUM_FMT with index 0, 1, ..., n - 1. */
  function EnumFormats(n: nat): (r: seq<Request>)
    ensures |r| == n && forall j :: 0 <= j < n ==> r[j] == EnumFormat(j)
  {
    seq(n, (j: int) requires 0 <= j => EnumFormat(j))
  }

  /** Every request `init_device` issues from the ENUM_FMT loop on when
      nothing fails, the device listing `k` formats. */
  function ConfigurePlan(k: nat): seq<Request>
  {
    EnumFormats(k + 1) + [SetFormat(PIXEL_FORMAT, FRAME_SIDE, FRAME_SIDE), GetFormat]
  }

  /** Every request `init_device` issues when nothing fails, the current
      input being `input` and the device listing `k` formats. */
  function InitPlan(input: nat, k: nat): seq<Request>
  {
    [QueryCap, GetInput] + ([EnumInput(input), GetFormat] + ConfigurePlan(k))
  }

  /** The second half of `init_device`, from the ENUM_FMT loop on, on a
      device whose next request is answered by `script[at]`. It succeeds
      exactly when its last request was answered. */
  function ConfigureFrom(script: seq<Reply>, at: nat): (o: Issued<bool>)
    ensures 1 <= |o.requests| && (o.result.Ok? <==> ReplyAt(script, at + |o.requests| - 1).ok)
  {
    var k := EnumRun(script, at);
    var listed := EnumFormats(k + 1) + [SetFormat(PIXEL_FORMAT, FRAME_SIDE, FRAME_SIDE)];
    if !ReplyAt(script, at + k + 1).ok then Issued(listed, Err("set format [FAILED]"))
    else if !ReplyAt(script, at + k + 2).ok then Issued(listed + [GetFormat], Err("get format [FAILED]"))
    else Issued(listed + [GetFormat], Ok(true))
  }

  /** The middle of `init_device`: ENUMINPUT on the input G_INPUT
      reported, G_FMT, then the rest from the ENUM_FMT loop on. It
      succeeds exactly when its last request was answered. */
  function InspectInputFrom(script: seq<Reply>, at: nat, input: nat): (o: Issued<bool>)
    ensures 1 <= |o.requests| && (o.result.Ok? <==> ReplyAt(script, at + |o.requests| - 1).ok)
  {
    if !ReplyAt(script, at).ok then Issued([EnumInput(input)], Err("get input [FAILED]"))
    else if !ReplyAt(script, at + 1).ok then Issued([EnumInput(input), GetFormat], Err("get format [FAILED]"))
    else
      var rest := ConfigureFrom(script, at + 2);
      Issued([EnumInput(input), GetFormat] + rest.requests, rest.result)
  }

  /** What `init_device` does on a device whose next request is answered
      by `script[at]`. It succeeds exactly when its last request was
      answered. */
  function InitDeviceFrom(script: seq<Reply>, at: nat): (o: Issued<bool>)
    ensures 1 <= |o.requests| && (o.result.Ok? <==> ReplyAt(script, at + |o.requests| - 1).ok)
  {
    if !ReplyAt(script, at).ok then Issued([QueryCap], Err("get info querycap [FAILED]"))
    else if !ReplyAt(script, at + 1).ok then Issued([QueryCap, GetInput], Err("get input index [FAILED]"))
    else
      var rest := InspectInputFrom(script, at + 2, ReplyAt(script, at + 1).value);
      Issued([QueryCap, GetInput] + rest.requests, rest.result)
  }

  /** `o` went along `plan` on the replies from `script[at]` on: it issued
      a prefix of the plan that ends outside the ENUM_FMT loop, every
      earlier request outside the loop succeeded, and it succeeded exactly
      when its last request did, which only the last request of the plan
      can do. */
  predicate Follows(o: Issued<bool>, plan: seq<Request>, script: seq<Reply>, at: nat)
  {
    var n := |o.requests|;
    && 1 <= n <= |plan| && o.requests == plan[..n] && !plan[n - 1].EnumFormat?
    && (o.result.Ok? <==> ReplyAt(script, at + n - 1).ok)
    && (o.result.Ok? ==> n == |plan|)
    && (forall j :: 0 <= j < n - 1 && !plan[j].EnumFormat? ==> ReplyAt(script, at + j).ok)
  }

  /** Requests that all succeed, issued before a run that follows its
      plan, extend that plan. */
  lemma FollowsAfter(head: seq<Request>, rest: Issued<bool>, plan: seq<Request>, script: seq<Reply>, at: nat)
    requires Follows(rest, plan, script, at + |head|)
    requires forall j :: 0 <= j < |head| ==> !head[j].EnumFormat? && ReplyAt(script, at + j).ok
    ensures Follows(Issued(head + rest.requests, rest.result), head + plan, script, at)
  {
    var n, whole := |rest.requests|, head + plan;
    assert whole[..|head| + n] == head + plan[..n];
    forall j | 0 <= j < |head| + n - 1 && !whole[j].EnumFormat?
      ensures ReplyAt(script, at + j).ok
    {
      if |head| <= j {
        assert whole[j] == plan[j - |head|];
        assert at + |head| + (j - |head|) == at + j;
      }
    }
  }

  /** The ENUM_FMT loop and the format setting follow their plan. */
  lemma ConfigureFollows(script: seq<Reply>, at: nat)
    ensures Follows(ConfigureFrom(script, at), ConfigurePlan(EnumRun(script, at)), script, at)
  {
    var k := EnumRun(script, at);
    var o, plan := ConfigureFrom(script, at), ConfigurePlan(k);
    var listed := EnumFormats(k + 1) + [SetFormat(PIXEL_FORMAT, FRAME_SIDE, FRAME_SIDE)];
    assert plan == listed + [GetFormat] && plan[..|listed|] == listed && plan[..|plan|] == plan;
    forall j | 0 <= j < |o.requests| - 1 && !plan[j].EnumFormat?
      ensures ReplyAt(script, at + j).ok
    {
      assert j == k + 1;
    }
  }

  /** The middle of `init_device` follows its plan. */
  lemma InspectFollows(script: seq<Reply>, at: nat, input: nat)
    ensures Follows(InspectInputFrom(script, at, input),
                    [EnumInput(input), GetFormat] + ConfigurePlan(EnumRun(script, at + 2)), script, at)
  {
    var plan := [EnumInput(input), GetFormat] + ConfigurePlan(EnumRun(script, at + 2));
    if !ReplyAt(script, at).ok {
      assert plan[..1] == [EnumInput(input)];
    } else if !ReplyAt(script, at + 1).ok {
      assert plan[..2] == [EnumInput(input), GetFormat];
    } else {
      var rest := ConfigureFrom(script, at + 2);
      assert InspectInputFrom(script, at, input) == Issued([EnumInput(input), GetFormat] + rest.requests, rest.result);
      ConfigureFollows(script, at + 2);
      FollowsAfter([EnumInput(input), GetFormat], rest,
                   ConfigurePlan(EnumRun(script, at + 2)), script, at);
    }
  }

  /** The whole of `init_device` follows its plan. */
  lemma InitFollows(script: seq<Reply>, at: nat)
    ensures Follows(InitDeviceFrom(script, at),
                    InitPlan(ReplyAt(script, at + 1).value, EnumRun(script, at + 4)), script, at)
  {
    var input := ReplyAt(script, at + 1).value;
    var plan := InitPlan(input, EnumRun(script, at + 4));
    if !ReplyAt(script, at).ok {
      assert plan[..1] == [QueryCap];
    } else if !ReplyAt(script, at + 1).ok {
      assert plan[..2] == [QueryCap, GetInput];
    } else {
      InspectFollows(script, at + 2, input);
      FollowsAfter([QueryCap, GetInput], InspectInputFrom(script, at + 2, input),
                   [EnumInput(input), GetFormat] + ConfigurePlan(EnumRun(script, at + 4)), script, at);
    }
  }

  /** `init_device` issues a prefix of its plan, in the plan's order: the
      ENUMINPUT names the input G_INPUT reported, the ENUM_FMT indices
      count up from 0, and S_FMT asks for 192 by 192 YUYV. */
  lemma InitFollowsPlan(script: seq<Reply>, at: nat)
    ensures var o := InitDeviceFrom(script, at);
      var plan := InitPlan(ReplyAt(script, at + 1).value, EnumRun(script, at + 4));
      && 1 <= |o.requests| <= |plan| && o.requests == plan[..|o.requests|]
  {
    InitFollows(script, at);
  }

  /** `init_device` succeeds exactly when it issues its whole plan and
      every request outside the ENUM_FMT loop succeeds. */
  lemma InitOkIffAllAnswered(script: seq<Reply>, at: nat)
    ensures var o := InitDeviceFrom(script, at);
      var plan := InitPlan(ReplyAt(script, at + 1).value, EnumRun(script, at + 4));
      o.result.Ok? <==>
        && o.requests == plan
        && forall j :: 0 <= j < |plan| && !plan[j].EnumFormat? ==> ReplyAt(script, at + j).ok
  {
    InitFollows(script, at);
    var o := InitDeviceFrom(script, at);
    var plan := InitPlan(ReplyAt(script, at + 1).value, EnumRun(script, at + 4));
    assert plan[..|plan|] == plan;
  }

  /** Any failure outside the ENUM_FMT loop ends `init_device`: the last
      request it issued is the one that failed, and every earlier request
      outside the loop succeeded. */
  lemma InitStopsAtFirstFailure(script: seq<Reply>, at: nat)
    ensures var o := InitDeviceFrom(script, at);
      var last := |o.requests| - 1;
      o.result.Err? ==>
        && 0 <= last && !o.requests[last].EnumFormat? && !ReplyAt(script, at + last).ok
        && forall j :: 0 <= j < last && !o.requests[j].EnumFormat? ==> ReplyAt(script, at + j).ok
  {
    InitFollows(script, at);
    var o := InitDeviceFrom(script, at);
    var plan := InitPlan(ReplyAt(script, at + 1).value, EnumRun(script, at + 4));
    forall j | 0 <= j < |o.requests| - 1 && !o.requests[j].EnumFormat?
      ensures ReplyAt(script, at + j).ok
    {
      assert o.requests[j] == plan[j];
    }
  }

  /** Requests 4 to 4 + k of the plan are the ENUM_FMT loop's. */
  lemma InitPlanLoop(input: nat, k: nat)
    ensures |InitPlan(input, k)| == 7 + k
    ensures forall i :: 4 <= i < 5 + k ==> InitPlan(input, k)[i] == EnumFormat(i - 4)
  {
    var mid := [EnumInput(input), GetFormat] + ConfigurePlan(k);
    forall i | 4 <= i < 5 + k
      ensures InitPlan(input, k)[i] == EnumFormat(i - 4)
    {
      assert InitPlan(input, k)[i] == mid[i - 2] == ConfigurePlan(k)[i - 4];
    }
  }

  /** Once past G_FMT, the ENUM_FMT loop has listed formats 0, 1, ..., k
      in full, where `k` is the number of successful replies that follow
      the G_FMT (so the last of these requests is the first to fail). */
  lemma InitEnumeratesUntilFailure(script: seq<Reply>, at: nat)
    ensures var o := InitDeviceFrom(script, at);
      var k := EnumRun(script, at + 4);
      4 < |o.requests| ==>
        && 6 + k <= |o.requests| && o.requests[4..5 + k] == EnumFormats(k + 1)
  {
    var o := InitDeviceFrom(script, at);
    var k := EnumRun(script, at + 4);
    var plan := InitPlan(ReplyAt(script, at + 1).value, k);
    var n := |o.requests|;
    assert n <= |plan| && o.requests == plan[..n] && (0 < n ==> !plan[n - 1].EnumFormat?) by {
      InitFollows(script, at);
    }
    InitPlanLoop(ReplyAt(script, at + 1).value, k);
    if 4 < n {
      assert o.requests[4..5 + k] == EnumFormats(k + 1) by {
        assert 6 + k <= n;
        var listed := o.requests[4..5 + k];
        forall i | 0 <= i < k + 1
          ensures listed[i] == EnumFormats(k + 1)[i]
        {
          assert o.requests[4 + i] == plan[4 + i];
        }
      }
    }
  }

  // ---------------------------------------------------------------------
  // allocate_and_mmap

  /** Every request `allocate_and_mmap` issues when nothing fails, the
      queried buffer being `length` bytes long. */
  function AllocatePlan(length: nat): seq<Request>
  {
    [RequestBuffers(BUFFER_COUNT), QueryBuffer(0), Map(length)]
  }

  /** What `allocate_and_mmap` does on a device whose next request is
      answered by `script[at]`; on success it gives the mapped length.
      It succeeds exactly when its last request was answered. */
  function AllocateFrom(script: seq<Reply>, at: nat): (o: Issued<nat>)
    ensures 1 <= |o.requests| <= 3 && (o.result.Ok? <==> ReplyAt(script, at + |o.requests| - 1).ok)
  {
    if !ReplyAt(script, at).ok then Issued([RequestBuffers(BUFFER_COUNT)], Err("request buffer [FAILED]"))
    else if !ReplyAt(script, at + 1).ok then Issued([RequestBuffers(BUFFER_COUNT), QueryBuffer(0)], Err("query buffer [FAILED]"))
    else
      var length := ReplyAt(script, at + 1).value;
      Issued([RequestBuffers(BUFFER_COUNT), QueryBuffer(0), Map(length)],
             if ReplyAt(script, at + 2).ok then Ok(length) else Err("mmap failed"))
  }

  /** `allocate_and_mmap` asks for four buffers, queries buffer 0 only and
      maps exactly the length the query reported; it succeeds exactly when
      every request it issued succeeded, and then returns that length. */
  lemma AllocateMapsQueriedBuffer(script: seq<Reply>, at: nat)
    ensures var o := AllocateFrom(script, at);
      var length := ReplyAt(script, at + 1).value;
      && 1 <= |o.requests| <= 3 && o.requests == AllocatePlan(length)[..|o.requests|]
      && (o.result.Ok? <==> |o.requests| == 3 && forall i :: at <= i < at + 3 ==> ReplyAt(script, i).ok)
      && (o.result.Ok? ==> o.result.value == length)
      && (o.result.Err? ==> !ReplyAt(script, at + |o.requests| - 1).ok)
  {
    var o := AllocateFrom(script, at);
    if o.result.Ok? {
      forall i | at <= i < at + 3
        ensures ReplyAt(script, i).ok
      {
        assert i == at || i == at + 1 || i == at + 2;
      }
    }
  }

  // ---------------------------------------------------------------------
  // The camera

  class Camera {
    /** The opened `/dev/videoN`. */
    const device: Device
    /** The length of the memory-mapped capture buffer. */
    const bufferLength: nat
    var fps: i32
    var streaming: bool

    /** The struct literal at the end of `Camera::new`. */
    constructor Mapped(device: Device, bufferLength: nat)
      ensures this.device == device && this.bufferLength == bufferLength
      ensures fps == 0 && !streaming
    {
      this.device := device;
      this.bufferLength := bufferLength;
      fps := 0;
      streaming := false;
    }

    /** `Camera::new`: initialises the device, maps buffer 0 and starts
        with no frame rate and no stream. `None` stands for the panic the
        source raises when either step fails. */
    static method New(device: Device) returns (camera: Option<Camera>)
      modifies device
      ensures var init := InitDeviceFrom(device.script, |old(device.log)|);
        var alloc := AllocateFrom(device.script, |old(device.log)| + |init.requests|);
        && device.log == old(device.log) + init.requests + (if init.result.Ok? then alloc.requests else [])
        && (camera.Some? <==> init.result.Ok? && alloc.result.Ok?)
        && (camera.Some? ==>
              && fresh(camera.value) && camera.value.device == device
              && camera.value.bufferLength == alloc.result.value
              && camera.value.fps == 0 && !camera.value.streaming)
    {
      var init := InitDevice(device);
      if init.Err? {
        return None;
      }
      var buffer := AllocateAndMmap(device);
      if buffer.Err? {
        return None;
      }
      var c := new Camera.Mapped(device, buffer.value);
      camera := Some(c);
    }

    /** `init_device`. */
    static method InitDevice(device: Device) returns (r: Result<bool>)
      modifies device
      ensures var o := InitDeviceFrom(device.script, |old(device.log)|);
        device.log == old(device.log) + o.requests && r == o.result
    {
      var reply := device.Issue(QueryCap);
      if !reply.ok {
        return Err("get info querycap [FAILED]");
      }
      reply := device.Issue(GetInput);
      if !reply.ok {
        return Err("get input index [FAILED]");
      }
      r := InspectInput(device, reply.value);
    }

    /** The middle of `init_device`: checks the input G_INPUT reported and
        reads the current format, then configures the format. */
    static method InspectInput(device: Device, input: nat) returns (r: Result<bool>)
      modifies device
      ensures var o := InspectInputFrom(device.script, |old(device.log)|, input);
        device.log == old(device.log) + o.requests && r == o.result
    {
      var reply := device.Issue(EnumInput(input));
      if !reply.ok {
        return Err("get input [FAILED]");
      }
      reply := device.Issue(GetFormat);
      if !reply.ok {
        return Err("get format [FAILED]");
      }
      r := ConfigureFormat(device);
    }

    /** The ENUM_FMT loop of `init_device`, then S_FMT to 192 by 192 YUYV
        and a G_FMT to read the result back. */
    static method ConfigureFormat(device: Device) returns (r: Result<bool>)
      modifies device
      ensures var o := ConfigureFrom(device.script, |old(device.log)|);
        device.log == old(device.log) + o.requests && r == o.result
    {
      ListFormats(device);
      var reply := device.Issue(SetFormat(PIXEL_FORMAT, FRAME_SIDE, FRAME_SIDE));
      if !reply.ok {
        return Err("set format [FAILED]");
      }
      reply := device.Issue(GetFormat);
      if !reply.ok {
        return Err("get format [FAILED]");
      }
      return Ok(true);
    }

    /** The ENUM_FMT loop: asks for format 0, 1, 2, ... until the device
        refuses one. */
    static method ListFormats(device: Device)
      modifies device
      ensures device.log == old(device.log) + EnumFormats(EnumRun(device.script, |old(device.log)|) + 1)
    {
      ghost var at := |device.log|;
      var index := 0;
      var reply := device.Issue(EnumFormat(index));
      while reply.ok
        invariant device.log == old(device.log) + EnumFormats(index + 1)
        invariant reply == ReplyAt(device.script, at + index)
        invariant EnumRun(device.script, at) == index + EnumRun(device.script, at + index)
        decreases |device.script| - |device.log|
      {
        index := index + 1;
        reply := device.Issue(EnumFormat(index));
      }
    }

    /** `allocate_and_mmap`; on success, the length of the mapped buffer. */
    static method AllocateAndMmap(device: Device) returns (r: Result<nat>)
      modifies device
      ensures var o := AllocateFrom(device.script, |old(device.log)|);
        device.log == old(device.log) + o.requests && r == o.result
    {
      var reply := device.Issue(RequestBuffers(BUFFER_COUNT));
      if !reply.ok {
        return Err("request buffer [FAILED]");
      }
      reply := device.Issue(QueryBuffer(0));
      if !reply.ok {
        return Err("query buffer [FAILED]");
      }
      var length := reply.value;
      reply := device.Issue(Map(length));
      if !reply.ok {
        return Err("mmap failed");
      }
      return Ok(length);
    }

    /** `set_frame_rate`: asks for one frame every `1 / newFps` seconds and
        records the rate only when the device accepts it. */
    method SetFrameRate(newFps: i32) returns (r: Result<bool>)
      modifies this, device
      ensures device.log == old(device.log) + [SetParm(1, U32(newFps))]
      ensures old(device.Next()).ok ==> fps == newFps && r == Ok(true)
      ensures !old(device.Next()).ok ==> fps == old(fps) && r == Err("set frame rate [FAILED]: ")
      ensures streaming == old(streaming)
    {
      var reply := device.Issue(SetParm(1, U32(newFps)));
      if reply.ok {
        fps := newFps;
        return Ok(true);
      }
      return Err("set frame rate [FAILED]: ");
    }

    /** `start_capture`: refuses to stream before a frame rate is set;
        otherwise turns the stream on and queues buffer 0, whose own
        failure it ignores. It takes `&self`, so it never records that the
        stream is on: `streaming` stays as it was. */
    method StartCapture() returns (r: Result<bool>)
      modifies device
      ensures streaming == old(streaming) && fps == old(fps)
      ensures fps == 0 ==> device.log == old(device.log) && r == Err("frame rate not set")
      ensures fps != 0 && streaming ==> device.log == old(device.log) && r == Ok(true)
      ensures fps != 0 && !streaming && !old(device.Next()).ok ==>
        device.log == old(device.log) + [StreamOn] && r == Err("stream on [FAILED]")
      ensures fps != 0 && !streaming && old(device.Next()).ok ==>
        device.log == old(device.log) + [StreamOn, Enqueue(0)] && r == Ok(true)
    {
      if fps == 0 {
        return Err("frame rate not set");
      }
      if streaming {
        return Ok(true);
      }
      var reply := device.Issue(StreamOn);
      if !reply.ok {
        return Err("stream on [FAILED]");
      }
      var _ := EnqueueBuffer();
      return Ok(true);
    }

    /** `stop_capture`: turns the stream off only when it is on. */
    method StopCapture() returns (r: Result<bool>)
      modifies device
      ensures !streaming ==> device.log == old(device.log) && r == Ok(true)
      ensures streaming ==> device.log == old(device.log) + [StreamOff]
      ensures streaming ==> r == if old(device.Next()).ok then Ok(true) else Err("stream off [FAILED]")
    {
      if !streaming {
        return Ok(true);
      }
      var reply := device.Issue(StreamOff);
      if !reply.ok {
        return Err("stream off [FAILED]");
      }
      return Ok(true);
    }

    /** `capture_image`: takes buffer 0 back from the driver and, only if
        that succeeds, hands it straight back, ignoring whether that
        succeeds. */
    method CaptureImage() returns (r: Result<bool>)
      modifies device
      ensures !old(device.Next()).ok ==> device.log == old(device.log) + [Dequeue(0)] && r == Err("dqbuf [FAILED]")
      ensures old(device.Next()).ok ==> device.log == old(device.log) + [Dequeue(0), Enqueue(0)] && r == Ok(true)
    {
      var reply := device.Issue(Dequeue(0));
      if !reply.ok {
        return Err("dqbuf [FAILED]");
      }
      var _ := EnqueueBuffer();
      return Ok(true);
    }

    /** `enqueue_buffer`: hands buffer 0 to the driver. */
    method EnqueueBuffer() returns (r: Result<bool>)
      modifies device
      ensures device.log == old(device.log) + [Enqueue(0)]
      ensures r == if old(device.Next()).ok then Ok(true) else Err("qbuf [FAILED]")
    {
      var reply := device.Issue(Enqueue(0));
      if !reply.ok {
        return Err("qbuf [FAILED]");
      }
      return Ok(true);
    }

    /** `Drop`: stops the stream if it is on, then unmaps the buffer with
        the length recorded when it was mapped. */
    method Drop()
      modifies device
      ensures device.log == old(device.log) + (if streaming then [StreamOff] else []) + [Unmap(bufferLength)]
    {
      var _ := StopCapture();
      var _ := device.Issue(Unmap(bufferLength));
    }
  }
}
