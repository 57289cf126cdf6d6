/**
 * The stream decoder: per frame it optionally arms the recorder from a
 * waiting capture request, combines and de-interleaves the payload, queues
 * each channel for display (and for the recorder while a capture is armed),
 * and then takes one capture step. Any error inside the frame handling is
 * caught: the frame is reported malformed and whatever was queued before the
 * failure stays queued.
 */
module StreamDecoding {
  import opened Wrappers
  import opened Bytes
  import opened Text
  import opened Grid
  import opened FrameReassembly
  import opened StreamDemux
  import opened Recording

  /** The decoder's state: its queues and its recorder fields. */
  datatype Decoder = Decoder(queues: Queues, rec: Recorder)

  /** A frame goes through: it combines, and its channels fit their sizes and queues. */
  predicate FrameFits(q: Queues, h: Header, payload: seq<byte>, recording: bool)
  {
    && CombineFrame(h, payload).Some?
    && (h.channels >= 1 ==>
          && |CombineFrame(h, payload).value| == h.channels * (h.height * h.width)
          && h.channels <= |q.channel|
          && (recording ==> h.channels <= |q.recorder|))
  }

  /** After a complete channel loop while recording, every channel has an image to save. */
  lemma PushedReady(q: Queues, samples: seq<int>, h: Header, fast: bool)
    requires PushFrom(q, samples, h, fast, true, 0).1 && h.dataWidth >= 8
    ensures ReadyToStep(PushFrom(q, samples, h, fast, true, 0).0.recorder, h)
  {
    PushFromOk(q, samples, h, fast, true, 0);
    var rq := PushFrom(q, samples, h, fast, true, 0).0.recorder;
    if h.channels >= 1 {
      assert ChannelOk(samples, h, |q.channel|, |q.recorder|, true, h.channels - 1);
    }
    forall c | 0 <= c < h.channels
      ensures |rq[c]| >= 1
    {
      assert ChannelOk(samples, h, |q.channel|, |q.recorder|, true, c);
      PushFromRecorderQueue(q, samples, h, fast, true, 0, c);
    }
  }

  /**
   * One iteration of the decoder's run loop on a frame with header h: the
   * optional capture request, the channel loop, and the capture step. The
   * flag reports a malformed frame; the list holds the images saved.
   */
  function HandleFrame(d: Decoder, fast: bool, h: Header, payload: seq<byte>, req: Option<CaptureRequest>)
    : (Decoder, bool, seq<SavedImage>)
  {
    var r1 := Setup(d.rec, req);
    match CombineFrame(h, payload)
    case None => (Decoder(d.queues, r1), true, [])
    case Some(samples) =>
      var (q2, ok) := PushFrom(d.queues, samples, h, fast, r1.remaining > 0, 0);
      if !ok then (Decoder(q2, r1), true, [])
      else if r1.remaining <= 0 then (Decoder(q2, r1), false, [])
      else
        PushedReady(d.queues, samples, h, fast);
        var (rq3, r3, saved, done) := RecordStep(q2.recorder, r1, h);
        (Decoder(Queues(q2.channel, rq3), r3), !done, saved)
  }

  /**
   * The front of channel c's recorder queue once this frame's image is
   * queued behind what was there, and whether it has no pixels, so that
   * writing it in the capture step raises.
   */
  predicate FrontUnwritable(rq: seq<seq<Item>>, samples: seq<int>, h: Header, c: nat)
    requires c < |rq| && c < h.channels
  {
    var grown := rq[c] + RecordItem(samples, h, c);
    |grown| >= 1 && NoPixels(grown[0].image)
  }

  /** A capture step on this frame fails: some channel's front image has no pixels. */
  predicate CaptureFails(q: Queues, h: Header, payload: seq<byte>)
    requires FrameFits(q, h, payload, true)
  {
    exists c :: 0 <= c < h.channels && FrontUnwritable(q.recorder, CombineFrame(h, payload).value, h, c)
  }

  /** After a complete channel loop while recording, each recorder queue of a channel has this frame's image at the back. */
  lemma ArmedPushed(q: Queues, samples: seq<int>, h: Header, fast: bool)
    requires PushFrom(q, samples, h, fast, true, 0).1
    ensures h.channels <= |q.recorder|
    ensures forall c :: 0 <= c < h.channels ==>
              PushFrom(q, samples, h, fast, true, 0).0.recorder[c] == q.recorder[c] + RecordItem(samples, h, c)
    ensures forall c :: 0 <= c < h.channels ==> |RecordItem(samples, h, c)| == 1
  {
    PushFromOk(q, samples, h, fast, true, 0);
    if h.channels >= 1 {
      assert ChannelOk(samples, h, |q.channel|, |q.recorder|, true, h.channels - 1);
    }
    forall c | 0 <= c < h.channels
      ensures PushFrom(q, samples, h, fast, true, 0).0.recorder[c] == q.recorder[c] + RecordItem(samples, h, c)
      ensures |RecordItem(samples, h, c)| == 1
    {
      assert ChannelOk(samples, h, |q.channel|, |q.recorder|, true, c);
      PushFromRecorderQueue(q, samples, h, fast, true, 0, c);
    }
  }

  /** A frame that combines goes through the channel loop exactly when it fits. */
  lemma PushIffFits(q: Queues, samples: seq<int>, h: Header, payload: seq<byte>, fast: bool, recording: bool)
    requires CombineFrame(h, payload) == Some(samples)
    ensures PushFrom(q, samples, h, fast, recording, 0).1 <==> FrameFits(q, h, payload, recording)
  {
    if h.channels >= 1 {
      PushFramesIff(q, samples, h, fast, recording);
    } else {
      PushFromOk(q, samples, h, fast, recording, 0);
    }
  }

  /**
   * A frame is reported malformed exactly when it does not combine, or its
   * sample count is not channels * height * width, or a channel has no
   * display queue, or, while a capture is armed, no recorder queue, or the
   * capture step meets an image without pixels.
   */
  lemma HandleFrameMalformed(d: Decoder, fast: bool, h: Header, payload: seq<byte>, req: Option<CaptureRequest>)
    ensures var armed := Setup(d.rec, req).remaining > 0;
            var malformed := HandleFrame(d, fast, h, payload, req).1;
            malformed <==> !FrameFits(d.queues, h, payload, armed) || (armed && CaptureFails(d.queues, h, payload))
  {
    var r1 := Setup(d.rec, req);
    if CombineFrame(h, payload).Some? {
      var samples := CombineFrame(h, payload).value;
      PushIffFits(d.queues, samples, h, payload, fast, r1.remaining > 0);
      if r1.remaining > 0 && FrameFits(d.queues, h, payload, true) {
        ArmedPushed(d.queues, samples, h, fast);
        PushedReady(d.queues, samples, h, fast);
        var q2 := PushFrom(d.queues, samples, h, fast, true, 0).0;
        assert forall c :: 0 <= c < h.channels ==> (NoPixels(q2.recorder[c][0].image) <==> FrontUnwritable(d.queues.recorder, samples, h, c));
      }
    }
  }

  /**
   * The frame of the reported case: every channel has a zero dimension and
   * nothing waits in the recorder queues. The capture step counts down, pops
   * channel 0's image and fails writing it, so the frame is malformed,
   * nothing is saved, the unique id stays, and the other channels keep this
   * frame's image queued.
   */
  lemma ZeroSizeCaptureFails(d: Decoder, fast: bool, h: Header, payload: seq<byte>, req: Option<CaptureRequest>)
    requires Setup(d.rec, req).remaining > 0 && FrameFits(d.queues, h, payload, true)
    requires h.channels >= 1 && h.width * h.height == 0
    requires forall c :: 0 <= c < h.channels ==> d.queues.recorder[c] == []
    ensures var (d', malformed, saved) := HandleFrame(d, fast, h, payload, req);
            var r1 := Setup(d.rec, req);
            && malformed && saved == []
            && d'.rec == r1.(remaining := r1.remaining - 1)
            && d'.queues.recorder[0] == []
            && forall c :: 1 <= c < h.channels ==> d'.queues.recorder[c] == RecordItem(CombineFrame(h, payload).value, h, c)
  {
    var samples := CombineFrame(h, payload).value;
    var q2 := PushFrom(d.queues, samples, h, fast, true, 0).0;
    var r1 := Setup(d.rec, req);
    HandleFrameArmed(d, fast, h, payload, req);
    ArmedPushed(d.queues, samples, h, fast);
    assert q2.recorder[0] == RecordItem(samples, h, 0);
    ZeroSizeNoPixels(samples, h, 0);
    StepFailsFirst(q2.recorder, r1, h);
  }

  /** While a capture is armed, a frame that fits is pushed and then handed to one capture step. */
  lemma HandleFrameArmed(d: Decoder, fast: bool, h: Header, payload: seq<byte>, req: Option<CaptureRequest>)
    requires Setup(d.rec, req).remaining > 0 && FrameFits(d.queues, h, payload, true)
    ensures var q2 := PushFrom(d.queues, CombineFrame(h, payload).value, h, fast, true, 0).0;
            && ReadyToStep(q2.recorder, h)
            && var res := RecordStep(q2.recorder, Setup(d.rec, req), h);
               HandleFrame(d, fast, h, payload, req) == (Decoder(Queues(q2.channel, res.0), res.1), !res.3, res.2)
  {
    var samples := CombineFrame(h, payload).value;
    PushIffFits(d.queues, samples, h, payload, fast, true);
    PushedReady(d.queues, samples, h, fast);
  }

  /** A channel image of a frame with a zero dimension has no pixels. */
  lemma ZeroSizeNoPixels(samples: seq<int>, h: Header, c: nat)
    requires c < h.channels && h.width * h.height == 0 && ChannelImage(samples, h, c).Some?
    ensures NoPixels(ChannelImage(samples, h, c).value)
  {
    assert h.width == 0 || h.height == 0;
  }

  /**
   * The recorder fields after a frame: those set up from the request, and,
   * when the frame fits while a capture is armed, one step further: remaining
   * counted down and, if the step ran to the end, the unique id advanced and
   * one image saved per channel. A step that fails saves fewer. The unique
   * id is never reset; it grows by one per completed capture step.
   */
  lemma HandleFrameRecorder(d: Decoder, fast: bool, h: Header, payload: seq<byte>, req: Option<CaptureRequest>)
    ensures var (d', malformed, saved) := HandleFrame(d, fast, h, payload, req);
            var r1 := Setup(d.rec, req);
            var stepped := r1.remaining > 0 && FrameFits(d.queues, h, payload, true);
            var completed := !malformed && r1.remaining > 0;
            && d'.rec == (if stepped then r1.(remaining := r1.remaining - 1, uniqueId := r1.uniqueId + if completed then 1 else 0) else r1)
            && d'.rec.uniqueId == d.rec.uniqueId + (if completed then 1 else 0)
            && |saved| <= h.channels
            && (completed ==> |saved| == h.channels)
            && (!stepped ==> saved == [])
  {
    var r1 := Setup(d.rec, req);
    if CombineFrame(h, payload).Some? {
      PushIffFits(d.queues, CombineFrame(h, payload).value, h, payload, fast, r1.remaining > 0);
    }
  }

  /**
   * A frame that goes through appends its channel's viewport to each display
   * queue of a channel and leaves the other display queues alone; a frame
   * that does not combine leaves every queue alone.
   */
  lemma HandleFrameDisplay(d: Decoder, fast: bool, h: Header, payload: seq<byte>, req: Option<CaptureRequest>, c: nat)
    requires c < |d.queues.channel|
    ensures var (d', malformed, saved) := HandleFrame(d, fast, h, payload, req);
            && |d'.queues.channel| == |d.queues.channel|
            && (CombineFrame(h, payload).None? ==> d'.queues == d.queues)
            && (!malformed ==>
                  d'.queues.channel[c] == d.queues.channel[c]
                    + (if c < h.channels then ViewItem(CombineFrame(h, payload).value, h, fast, c) else []))
  {
    var r1 := Setup(d.rec, req);
    if CombineFrame(h, payload).Some? {
      var samples := CombineFrame(h, payload).value;
      PushFromOk(d.queues, samples, h, fast, r1.remaining > 0, 0);
      PushFromChannelQueue(d.queues, samples, h, fast, r1.remaining > 0, 0, c);
    }
  }

  /** Recorder queues keep their number; without an armed capture they are untouched. */
  lemma HandleFrameRecorderQueues(d: Decoder, fast: bool, h: Header, payload: seq<byte>, req: Option<CaptureRequest>)
    ensures |HandleFrame(d, fast, h, payload, req).0.queues.recorder| == |d.queues.recorder|
    ensures Setup(d.rec, req).remaining <= 0 ==> HandleFrame(d, fast, h, payload, req).0.queues.recorder == d.queues.recorder
  {
    var r1 := Setup(d.rec, req);
    if CombineFrame(h, payload).Some? {
      var samples := CombineFrame(h, payload).value;
      PushFromOk(d.queues, samples, h, fast, r1.remaining > 0, 0);
      if r1.remaining <= 0 {
        forall i | 0 <= i < |d.queues.recorder|
          ensures PushFrom(d.queues, samples, h, fast, false, 0).0.recorder[i] == d.queues.recorder[i]
        {
          PushFromRecorderQueue(d.queues, samples, h, fast, false, 0, i);
        }
      }
    }
  }

  /**
   * While a capture is armed and the frame fits, the recorder queue of a
   * channel gets the channel's full image at the back and gives up its front
   * if the capture step reached it (always, when the frame is not malformed),
   * so its length is then unchanged.
   */
  lemma HandleFrameRecorderQueue(d: Decoder, fast: bool, h: Header, payload: seq<byte>, req: Option<CaptureRequest>, c: nat)
    requires c < |d.queues.recorder| && c < h.channels
    requires Setup(d.rec, req).remaining > 0 && FrameFits(d.queues, h, payload, true)
    ensures var (d', malformed, saved) := HandleFrame(d, fast, h, payload, req);
            var grown := d.queues.recorder[c] + RecordItem(CombineFrame(h, payload).value, h, c);
            && |grown| == |d.queues.recorder[c]| + 1
            && d'.queues.recorder[c] == (if c <= |saved| then grown[1..] else grown)
            && (!malformed ==> d'.queues.recorder[c] == grown[1..])
  {
    var r1 := Setup(d.rec, req);
    var samples := CombineFrame(h, payload).value;
    PushIffFits(d.queues, samples, h, payload, fast, true);
    ArmedPushed(d.queues, samples, h, fast);
    PushedReady(d.queues, samples, h, fast);
    var q2 := PushFrom(d.queues, samples, h, fast, true, 0).0;
    var step := RecordStep(q2.recorder, r1, h);
    assert HandleFrame(d, fast, h, payload, req) == (Decoder(Queues(q2.channel, step.0), step.1), !step.3, step.2);
  }

  /**
   * The image saved for channel c in a capture step is the front of its
   * recorder queue after this frame's image was queued behind it (an image
   * left over from an earlier malformed frame, if any, otherwise this
   * frame's), reduced to 8 bits, under its capture name; it has pixels.
   */
  lemma HandleFrameSaved(d: Decoder, fast: bool, h: Header, payload: seq<byte>, req: Option<CaptureRequest>, c: nat)
    requires c < |d.queues.recorder| && c < h.channels
    requires Setup(d.rec, req).remaining > 0 && FrameFits(d.queues, h, payload, true)
    requires c < |HandleFrame(d, fast, h, payload, req).2|
    ensures var r1 := Setup(d.rec, req);
            var grown := d.queues.recorder[c] + RecordItem(CombineFrame(h, payload).value, h, c);
            && |grown| >= 1 && !NoPixels(grown[0].image)
            && HandleFrame(d, fast, h, payload, req).2[c] == SavedImage(
                 CaptureName(r1.outputDir, r1.baseFilename, c, h.width, h.height, r1.several, r1.remaining - 1, r1.uniqueId),
                 ReduceImage(grown[0].image, h.dataWidth))
  {
    var r1 := Setup(d.rec, req);
    var samples := CombineFrame(h, payload).value;
    PushIffFits(d.queues, samples, h, payload, fast, true);
    ArmedPushed(d.queues, samples, h, fast);
    PushedReady(d.queues, samples, h, fast);
    var q2 := PushFrom(d.queues, samples, h, fast, true, 0).0;
    var step := RecordStep(q2.recorder, r1, h);
    assert HandleFrame(d, fast, h, payload, req) == (Decoder(Queues(q2.channel, step.0), step.1), !step.3, step.2);
  }

  /**
   * The channel loop of `step_record_request`, for a recorder whose count
   * is already down: channel by channel, pop the front image and save it
   * under its capture name, until an image without pixels makes the write
   * raise right after its pop.
   */
  method SaveChannels(rq: seq<seq<Item>>, r: Recorder, h: Header) returns (queues: seq<seq<Item>>, saved: seq<SavedImage>, ok: bool)
    requires ReadyToStep(rq, h)
    ensures var res := RecordStep(rq, r.(remaining := r.remaining + 1), h);
            queues == res.0 && saved == res.2 && ok == res.3
  {
    ghost var r0 := r.(remaining := r.remaining + 1);
    ghost var e := FirstUnwritable(rq, h, 0);
    queues := rq;
    saved := [];
    var c := 0;
    while c < h.channels
      invariant 0 <= c <= e
      invariant queues == Popped(rq, h, c)
      invariant saved == SavedUpTo(rq, r0, h, c)
    {
      var item := queues[c][0];
      PoppedStep(rq, h, c);
      queues := queues[c := queues[c][1..]];
      if NoPixels(item.image) {
        StepStops(rq, r0, h, c);
        return queues, saved, false;
      }
      var name := CaptureName(r.outputDir, r.baseFilename, c, h.width, h.height, r.several, r.remaining, r.uniqueId);
      SavedStep(rq, r0, h, c);
      saved := saved + [SavedImage(name, ReduceImage(item.image, h.dataWidth))];
      c := c + 1;
    }
    StepCompletes(rq, r0, h);
    ok := true;
  }

  /** The decoder object: its display and recorder queues and its recorder fields. */
  class StreamDecoder {
    const fast: bool
    var channelQueues: seq<seq<Item>>
    var recorderQueues: seq<seq<Item>>
    var remaining: int
    var severalFramesRequested: bool
    var outputDir: string
    var baseFilename: string
    var uniqueId: nat

    function State(): Decoder
      reads this
    {
      Decoder(Queues(channelQueues, recorderQueues),
              Recorder(remaining, severalFramesRequested, outputDir, baseFilename, uniqueId))
    }

    constructor (channelQueues: seq<seq<Item>>, recorderQueues: seq<seq<Item>>, fast: bool)
      ensures this.fast == fast
      ensures State() == Decoder(Queues(channelQueues, recorderQueues), InitialRecorder)
    {
      this.fast := fast;
      this.channelQueues := channelQueues;
      this.recorderQueues := recorderQueues;
      remaining, severalFramesRequested, outputDir, baseFilename, uniqueId := 0, false, "", "", 0;
    }

    /** `setup_record_request`; the directory creation is not part of the model. */
    method SetupRecordRequest(req: Option<CaptureRequest>)
      modifies this
      ensures State() == old(State()).(rec := Setup(old(State()).rec, req))
    {
      if req.None? {
        return;
      }
      remaining := req.value.frames;
      if remaining < 2 {
        severalFramesRequested := false;
      } else {
        severalFramesRequested := true;
      }
      var filePath := Split(req.value.filename, '/');
      if req.value.filename == "" {
        outputDir := "";
        baseFilename := "default";
      } else if |filePath| == 1 {
        outputDir := filePath[0];
        baseFilename := "default";
      } else {
        outputDir := Join(filePath[..|filePath| - 1], '/');
        baseFilename := filePath[|filePath| - 1];
      }
    }

    /**
     * `step_record_request`: count down, then pop and save one image per
     * channel, stopping with `ok` false at an image without pixels (where
     * `cv2.imwrite` raises); the unique id advances only after the last one.
     */
    method StepRecordRequest(h: Header) returns (saved: seq<SavedImage>, ok: bool)
      requires ReadyToStep(recorderQueues, h)
      modifies this
      ensures channelQueues == old(channelQueues)
      ensures (recorderQueues, State().rec, saved, ok) == RecordStep(old(recorderQueues), old(State()).rec, h)
    {
      remaining := remaining - 1;
      var queues;
      queues, saved, ok := SaveChannels(recorderQueues, State().rec, h);
      recorderQueues := queues;
      if ok {
        uniqueId := uniqueId + 1;
      }
    }

    /** One iteration of the run loop on a frame with header h and an optional waiting request. */
    method ProcessFrame(h: Header, payload: seq<byte>, req: Option<CaptureRequest>) returns (malformed: bool, saved: seq<SavedImage>)
      modifies this
      ensures (State(), malformed, saved) == HandleFrame(old(State()), fast, h, payload, req)
    {
      SetupRecordRequest(req);
      saved := [];
      var combined := CombineFrame(h, payload);
      if combined.None? {
        malformed := true;
        return;
      }
      var samples := combined.value;
      ghost var q0 := State().queues;
      var ok := PushChannels(h, samples);
      if !ok {
        malformed := true;
        return;
      }
      malformed := false;
      if remaining > 0 {
        PushedReady(q0, samples, h, fast);
        var done;
        saved, done := StepRecordRequest(h);
        malformed := !done;
      }
    }

    /**
     * The channel loop of the run loop: each channel's image goes to its
     * display queue and, while a capture is armed, to its recorder queue.
     * It stops at the first channel that has no image or no queue.
     */
    method PushChannels(h: Header, samples: seq<int>) returns (ok: bool)
      modifies this`channelQueues, this`recorderQueues
      ensures (State().queues, ok) == PushFrom(old(State().queues), samples, h, fast, remaining > 0, 0)
    {
      ghost var q0 := State().queues;
      var c := 0;
      while c < h.channels
        invariant 0 <= c <= h.channels
        invariant PushFrom(State().queues, samples, h, fast, remaining > 0, c) == PushFrom(q0, samples, h, fast, remaining > 0, 0)
      {
        var channel := ChannelImage(samples, h, c);
        if channel.None? || c >= |channelQueues| {
          return false;
        }
        channelQueues := channelQueues[c := channelQueues[c] + [Item(h, Viewport(channel.value, fast))]];
        if remaining > 0 {
          if c >= |recorderQueues| {
            return false;
          }
          recorderQueues := recorderQueues[c := recorderQueues[c] + [Item(h, channel.value)]];
        }
        c := c + 1;
      }
      return true;
    }
  }
}
