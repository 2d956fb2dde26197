/** The FFmpeg encoder wrapper: its settings, the codec parameters `open`
    derives from them, and the `opened` lifecycle of `open`, `encodeFrame`,
    `flush` and `close`. The libav calls themselves are opaque: each may
    fail, and which one fails is a parameter. What the wrapper hands to the
    codec and the muxer is recorded in a log of calls. */
module FfmpegEncoder {
  import opened Wrappers

  /** `EncodeSettings` with its defaults. */
  datatype EncodeSettings = EncodeSettings(outputPath: string, codec: string, fps: int, crf: int, preset: string)

  const DefaultSettings := EncodeSettings("", "libx264", 30, 20, "slow")

  /** A time base or frame rate, `num / den`. */
  datatype Rational = Rational(num: int, den: int)

  /** The codec context fields `open` sets. `crf` and `preset` are `None`
      when the option is not passed to the codec. */
  datatype CodecConfig = CodecConfig(
    width: int,
    height: int,
    timeBase: Rational,
    frameRate: Rational,
    gopSize: int,
    crf: Option<int>,
    preset: Option<string>)

  /** The calls the wrapper makes on the codec and the muxer that matter to
      the output: a frame with its pts and duration, the end-of-stream
      flush, and the trailer written on close. */
  datatype Call = SendFrame(pts: int, duration: int) | SendFlush | WriteTrailer

  datatype Encoder = Encoder(
    settings: EncodeSettings,
    width: int,
    height: int,
    srcStride: int,
    isOpen: bool,
    config: Option<CodecConfig>,
    calls: seq<Call>)

  /** The result of a call that may throw: the encoder afterwards and the
      exception's message, if any. */
  datatype Outcome = Outcome(encoder: Encoder, failure: Option<string>)

  /** The constructor only stores its arguments. */
  function NewEncoder(settings: EncodeSettings, width: int, height: int, srcStride: int): (e: Encoder)
    ensures !e.isOpen && e.config == None && e.calls == []
    ensures e.settings == settings && e.width == width && e.height == height
  {
    Encoder(settings, width, height, srcStride, false, None, [])
  }

  /** The setup steps of `open` after the path check, in order. */
  datatype SetupStep =
    | FindEncoder | AllocOutputContext | NewStream | AllocCodecContext | OpenCodec
    | StreamParameters | OpenOutput | WriteHeader | AllocDstFrame | AllocFrameBuffer
    | AllocSrcFrame | CreateScaler

  /** A failing libav call: the step and libav's description of the error. */
  datatype SetupFailure = SetupFailure(step: SetupStep, detail: string)

  const EMPTY_PATH_ERROR := "FFmpeg output path is empty"
  const NOT_OPENED_ERROR := "FFmpeg encoder not opened"

  /** The exception text `open` raises when a step fails. */
  function SetupError(f: SetupFailure, codec: string): (msg: string)
    ensures |msg| > 0
  {
    match f.step
    case FindEncoder => "Failed to find encoder: " + codec
    case AllocOutputContext => "Failed to create output context: " + f.detail
    case NewStream => "Failed to create output stream"
    case AllocCodecContext => "Failed to allocate codec context"
    case OpenCodec => "Failed to open encoder: " + f.detail
    case StreamParameters => "Failed to set stream params: " + f.detail
    case OpenOutput => "Failed to open output: " + f.detail
    case WriteHeader => "Failed to write header: " + f.detail
    case AllocDstFrame => "Failed to allocate destination frame"
    case AllocFrameBuffer => "Failed to allocate frame buffer: " + f.detail
    case AllocSrcFrame => "Failed to allocate source frame"
    case CreateScaler => "Failed to create sws context"
  }

  /** The codec parameters `open` derives from the settings: a time base of
      one tick per frame, a GOP of one second, and the optional crf and
      preset options. */
  function ConfigFor(s: EncodeSettings, width: int, height: int): (c: CodecConfig)
    ensures c.width == width && c.height == height
    ensures c.timeBase.num * c.frameRate.num == c.timeBase.den * c.frameRate.den
    ensures c.timeBase.num == 1 && c.frameRate.den == 1 && c.gopSize == c.frameRate.num
    ensures c.crf.Some? <==> s.crf >= 0
    ensures c.preset.Some? <==> s.preset != []
    ensures c.crf.Some? ==> c.crf.value == s.crf
    ensures c.preset.Some? ==> c.preset.value == s.preset
  {
    CodecConfig(width, height, Rational(1, s.fps), Rational(s.fps, 1), s.fps,
                if s.crf >= 0 then Some(s.crf) else None,
                if s.preset != [] then Some(s.preset) else None)
  }

  /** `open`: nothing on an opened encoder; an empty path is rejected before
      any libav call; otherwise the encoder is opened unless a setup step
      fails, in which case it stays closed. */
  function Open(e: Encoder, failAt: Option<SetupFailure>): (r: Outcome)
    ensures e.isOpen ==> r == Outcome(e, None)
    ensures !e.isOpen && e.settings.outputPath == [] ==> r == Outcome(e, Some(EMPTY_PATH_ERROR))
    ensures r.encoder.isOpen <==> e.isOpen || (e.settings.outputPath != [] && failAt.None?)
    ensures r.failure.None? <==> r.encoder.isOpen
    ensures r.encoder.calls == e.calls && r.encoder.settings == e.settings
    ensures !e.isOpen && r.encoder.isOpen ==>
              r.encoder.config == Some(ConfigFor(e.settings, e.width, e.height))
  {
    if e.isOpen then Outcome(e, None)
    else if e.settings.outputPath == [] then Outcome(e, Some(EMPTY_PATH_ERROR))
    else if failAt.Some? then Outcome(e, Some(SetupError(failAt.value, e.settings.codec)))
    else Outcome(e.(isOpen := true, config := Some(ConfigFor(e.settings, e.width, e.height))), None)
  }

  /** A libav failure inside `encodeFrame` or `flush`: the exception's
      message, and whether it came after the frame (or the end of stream)
      was handed to the codec, while packets were received and written. */
  datatype LibavFailure = LibavFailure(afterSend: bool, message: string)

  /** True when the codec receives what the call sends: the encoder is
      opened and no failure comes before the send. */
  predicate Sends(e: Encoder, fail: Option<LibavFailure>) {
    e.isOpen && (fail.None? || fail.value.afterSend)
  }

  /** `encodeFrame`: rejected before `open`; otherwise the frame goes to the
      codec with pts `frameIndex` and duration 1 unless a libav call fails
      before the send; a failure while receiving or writing packets comes
      after the codec has the frame. The encoder stays opened. */
  function EncodeFrame(e: Encoder, frameIndex: int, fail: Option<LibavFailure>): (r: Outcome)
    ensures !e.isOpen ==> r == Outcome(e, Some(NOT_OPENED_ERROR))
    ensures Sends(e, fail) ==> r.encoder == e.(calls := e.calls + [SendFrame(frameIndex, 1)])
    ensures !Sends(e, fail) ==> r.encoder == e
    ensures r.failure.None? <==> e.isOpen && fail.None?
    ensures e.isOpen && fail.Some? ==> r.failure == Some(fail.value.message)
  {
    if !e.isOpen then Outcome(e, Some(NOT_OPENED_ERROR))
    else if fail.Some? && !fail.value.afterSend then Outcome(e, Some(fail.value.message))
    else
      var sent := e.(calls := e.calls + [SendFrame(frameIndex, 1)]);
      Outcome(sent, if fail.Some? then Some(fail.value.message) else None)
  }

  /** `flush`: nothing when not opened; otherwise end of stream is signalled
      to the codec unless that call fails; a failure while draining comes
      after it. */
  function Flush(e: Encoder, fail: Option<LibavFailure>): (r: Outcome)
    ensures !e.isOpen ==> r == Outcome(e, None)
    ensures Sends(e, fail) ==> r.encoder == e.(calls := e.calls + [SendFlush])
    ensures !Sends(e, fail) ==> r.encoder == e
    ensures r.failure.None? <==> !e.isOpen || fail.None?
    ensures e.isOpen && fail.Some? ==> r.failure == Some(fail.value.message)
  {
    if !e.isOpen then Outcome(e, None)
    else if fail.Some? && !fail.value.afterSend then Outcome(e, Some(fail.value.message))
    else
      var sent := e.(calls := e.calls + [SendFlush]);
      Outcome(sent, if fail.Some? then Some(fail.value.message) else None)
  }

  /** A failing call leaves at most its own send behind: a frame whose
      packets could not be received is still in the codec, and a second
      `encodeFrame` adds its own frame after it. */
  lemma FailedEncodeKeepsFrame(e: Encoder, i: int, j: int, message: string)
    requires e.isOpen
    ensures var o := EncodeFrame(e, i, Some(LibavFailure(true, message)));
            o.failure == Some(message)
            && EncodeFrame(o.encoder, j, None).encoder.calls == e.calls + [SendFrame(i, 1), SendFrame(j, 1)]
  {
  }

  /** `close` (also run by the destructor): nothing when not opened;
      otherwise the trailer is written, a trailer failure is only logged,
      and the encoder is closed. It never throws. */
  function Close(e: Encoder): (r: Encoder)
    ensures !r.isOpen
    ensures e.isOpen ==> r.config == None
    ensures !e.isOpen ==> r == e
    ensures e.isOpen ==> r.calls == e.calls + [WriteTrailer]
    ensures r.settings == e.settings && r.width == e.width && r.height == e.height
  {
    if !e.isOpen then e
    else e.(isOpen := false, config := None, calls := e.calls + [WriteTrailer])
  }

  /** A second `close` does nothing, so the destructor after an explicit
      close is harmless. */
  lemma CloseIdempotent(e: Encoder)
    ensures Close(Close(e)) == Close(e)
  {
  }

  /** A second `open` does nothing and cannot fail. */
  lemma OpenIdempotent(e: Encoder, f1: Option<SetupFailure>, f2: Option<SetupFailure>)
    requires Open(e, f1).failure.None?
    ensures Open(Open(e, f1).encoder, f2) == Open(e, f1)
  {
  }

  /** With the default settings the output path is empty, so `open` fails
      whatever libav would do, and encoding is then rejected. */
  lemma DefaultSettingsCannotOpen(width: int, height: int, stride: int, failAt: Option<SetupFailure>, idx: int)
    ensures var e := NewEncoder(DefaultSettings, width, height, stride);
            Open(e, failAt).failure == Some(EMPTY_PATH_ERROR)
            && EncodeFrame(Open(e, failAt).encoder, idx, None).failure == Some(NOT_OPENED_ERROR)
  {
  }

  /** The defaults give one-thirtieth-second ticks, a 30-frame GOP, crf 20
      and the "slow" preset. */
  lemma DefaultConfig(width: int, height: int)
    ensures var c := ConfigFor(DefaultSettings, width, height);
            c.timeBase == Rational(1, 30) && c.frameRate == Rational(30, 1) && c.gopSize == 30
            && c.crf == Some(20) && c.preset == Some("slow")
  {
  }

  /** The frames a run of successful `encodeFrame` calls sends, one per
      index, in call order. */
  function FrameCalls(indices: seq<int>): (cs: seq<Call>)
    ensures |cs| == |indices|
    ensures forall i :: 0 <= i < |indices| ==> cs[i] == SendFrame(indices[i], 1)
  {
    if indices == [] then [] else [SendFrame(indices[0], 1)] + FrameCalls(indices[1..])
  }

  /** `encodeFrame` over `indices` with no libav failure, stopping at the
      first exception. */
  function EncodeAll(e: Encoder, indices: seq<int>): (r: Outcome)
    decreases |indices|
  {
    if indices == [] then Outcome(e, None)
    else
      var o := EncodeFrame(e, indices[0], None);
      if o.failure.Some? then o else EncodeAll(o.encoder, indices[1..])
  }

  /** On an opened encoder every frame reaches the codec, in order, with pts
      equal to its index and duration 1. */
  lemma {:induction false} EncodeAllSends(e: Encoder, indices: seq<int>)
    requires e.isOpen
    ensures EncodeAll(e, indices) == Outcome(e.(calls := e.calls + FrameCalls(indices)), None)
    decreases |indices|
  {
    if indices != [] {
      var e1 := e.(calls := e.calls + [SendFrame(indices[0], 1)]);
      assert EncodeFrame(e, indices[0], None) == Outcome(e1, None);
      EncodeAllSends(e1, indices[1..]);
      var first, later := [SendFrame(indices[0], 1)], FrameCalls(indices[1..]);
      assert FrameCalls(indices) == first + later;
      AppendAssoc(e.calls, first, later);
    }
  }

  lemma AppendAssoc(a: seq<Call>, b: seq<Call>, c: seq<Call>)
    ensures (a + b) + c == a + (b + c)
  {
  }

  /** A whole session, as the offline renderer drives it: open, encode the
      given frames, flush, close. With no libav failure the muxer sees the
      frames in order, one flush and one trailer, and the encoder ends
      closed. */
  lemma SessionCalls(s: EncodeSettings, width: int, height: int, stride: int, indices: seq<int>)
    requires s.outputPath != []
    ensures var o := Open(NewEncoder(s, width, height, stride), None);
            var enc := EncodeAll(o.encoder, indices);
            var fl := Flush(enc.encoder, None);
            o.failure.None? && enc.failure.None? && fl.failure.None?
            && Close(fl.encoder).calls == FrameCalls(indices) + [SendFlush, WriteTrailer]
            && !Close(fl.encoder).isOpen
  {
    var o := Open(NewEncoder(s, width, height, stride), None);
    EncodeAllSends(o.encoder, indices);
    assert [] + FrameCalls(indices) == FrameCalls(indices);
  }
}
