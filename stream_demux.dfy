/**
 * The per-frame data path of the stream decoder: payload bytes are grouped
 * into samples and combined into integers (`combine_bytes`), the samples are
 * de-interleaved by channel with stride `channels`, each channel is reshaped
 * row-major into `height` x `width` and a viewport of it is queued for
 * display, and a full copy is queued for the recorder while a capture is
 * armed.
 */
module StreamDemux {
  import opened Wrappers
  import opened Bytes
  import opened Grid
  import opened FrameReassembly

  // ------------------------------------------------------------ combine_bytes

  /**
   * `combine_bytes` on one row b0 .. b(k-1) with shift unit s: the sum of
   * b_j << s*(k-1-j).
   */
  function RowValue(row: seq<byte>, shift: nat): nat
  {
    if row == [] then 0 else row[0] * Pow2(shift * (|row| - 1)) + RowValue(row[1..], shift)
  }

  /** With an 8-bit shift unit the combination is the big-endian value of the row. */
  lemma {:induction false} RowValueBigEndian(row: seq<byte>)
    ensures RowValue(row, 8) == BigEndianValue(row)
    decreases |row|
  {
    if row != [] {
      RowValueBigEndian(row[1..]);
      BigEndianFront(row);
      Pow256IsPow2(|row| - 1);
    }
  }

  /** A single-byte row is the byte itself, whatever the shift unit. */
  lemma RowValueSingle(b: byte, shift: nat)
    ensures RowValue([b], shift) == b
  {
    assert [b][1..] == [];
  }

  /** The payload cut into n groups of k bytes, each combined with shift unit `shift`. */
  function Samples(p: seq<byte>, k: nat, shift: nat, n: nat): (r: seq<int>)
    requires k >= 1 && |p| == n * k
    ensures |r| == n
    decreases n
  {
    if n == 0 then []
    else
      MulSucc(n - 1, k);
      [RowValue(p[..k], shift)] + Samples(p[k..], k, shift, n - 1)
  }

  /** Sample i is the combination of bytes i*k .. i*k+k-1. */
  lemma {:induction false} SamplesAt(p: seq<byte>, k: nat, shift: nat, n: nat, i: nat)
    requires k >= 1 && |p| == n * k && i < n
    ensures i * k + k <= |p|
    ensures Samples(p, k, shift, n)[i] == RowValue(p[i * k .. i * k + k], shift)
    decreases i
  {
    SamplesCons(p, k, shift, n);
    if i == 0 {
      assert i * k == 0;
    } else {
      SamplesAt(p[k..], k, shift, n - 1, i - 1);
      var off := (i - 1) * k;
      MulSucc(i - 1, k);
      DropSlice(p, k, off, off + k);
    }
  }

  /** The frame's samples are its first group's value followed by the samples of the rest. */
  lemma SamplesCons(p: seq<byte>, k: nat, shift: nat, n: nat)
    requires k >= 1 && |p| == n * k && n >= 1
    ensures k <= |p| && |p[k..]| == (n - 1) * k
    ensures Samples(p, k, shift, n) == [RowValue(p[..k], shift)] + Samples(p[k..], k, shift, n - 1)
  {
    MulSucc(n - 1, k);
  }

  lemma DropSlice(p: seq<byte>, k: nat, a: nat, b: nat)
    requires a <= b && k + b <= |p|
    ensures p[k..][a..b] == p[k + a..k + b]
  {
  }

  /**
   * The grouping and combining of one frame as written: `data_width // 8`
   * bytes per sample, and the shift unit is `data_width` itself. numpy
   * refuses the grouping when there are zero bytes per sample or the payload
   * is not a whole number of groups.
   */
  function CombineFrame(h: Header, p: seq<byte>): (r: Option<seq<int>>)
    ensures r.Some? <==> h.dataWidth >= 8 && |p| % (h.dataWidth / 8) == 0
    ensures r.Some? ==> |r.value| == |p| / (h.dataWidth / 8)
  {
    var k := h.dataWidth / 8;
    if k == 0 || |p| % k != 0 then None
    else Some(Samples(p, k, h.dataWidth, |p| / k))
  }

  /** Each combined sample is its group of bytes under the data-width shift unit. */
  lemma CombineFrameAt(h: Header, p: seq<byte>, i: nat)
    requires CombineFrame(h, p).Some? && i < |CombineFrame(h, p).value|
    ensures var k := h.dataWidth / 8;
            i * k + k <= |p| &&
            CombineFrame(h, p).value[i] == RowValue(p[i * k .. i * k + k], h.dataWidth)
  {
    SamplesAt(p, h.dataWidth / 8, h.dataWidth, |p| / (h.dataWidth / 8), i);
  }

  // ------------------------------------------------------------ the combine shift

  /** Two bytes 1, 2 combine to 65538 with the 16-bit shift unit, not to 258. */
  lemma CombineShiftExample()
    ensures RowValue([1, 2], 16) == 65538
    ensures BigEndianValue([1, 2]) == 258
  {
    assert [1, 2][1..] == [2];
    assert [2][1..] == [];
    Pow256IsPow2(2);
    assert [1, 2][..1] == [1];
    assert [1][..0] == [];
  }

  /** The corrected grouping and combining: big-endian bytes with an 8-bit shift unit. */
  function CombineFrameIntended(h: Header, p: seq<byte>): (r: Option<seq<int>>)
    ensures r.Some? <==> CombineFrame(h, p).Some?
    ensures r.Some? ==> |r.value| == |CombineFrame(h, p).value|
  {
    var k := h.dataWidth / 8;
    if k == 0 || |p| % k != 0 then None
    else Some(Samples(p, k, 8, |p| / k))
  }

  /** Under the correction every sample is the big-endian value of its bytes. */
  lemma CombineFrameIntendedAt(h: Header, p: seq<byte>, i: nat)
    requires CombineFrameIntended(h, p).Some? && i < |CombineFrameIntended(h, p).value|
    ensures var k := h.dataWidth / 8;
            i * k + k <= |p| &&
            CombineFrameIntended(h, p).value[i] == BigEndianValue(p[i * k .. i * k + k])
  {
    var k := h.dataWidth / 8;
    SamplesAt(p, k, 8, |p| / k, i);
    RowValueBigEndian(p[i * k .. i * k + k]);
  }

  /** Under the correction an 8-bit frame combines exactly as written. */
  lemma CombineFrameAgreesOnBytes(h: Header, p: seq<byte>, i: nat)
    requires h.dataWidth / 8 == 1
    requires CombineFrame(h, p).Some? && i < |CombineFrame(h, p).value|
    ensures CombineFrameIntended(h, p).value[i] == CombineFrame(h, p).value[i]
  {
    CombineFrameAt(h, p, i);
    CombineFrameIntendedAt(h, p, i);
    assert p[i .. i + 1] == [p[i]];
    RowValueSingle(p[i], h.dataWidth);
    RowValueSingle(p[i], 8);
  }

  // ------------------------------------------------------------ channels

  /** Channel c: every `channels`-th sample from c on, reshaped to height x width. */
  function ChannelImage(samples: seq<int>, h: Header, c: nat): Option<Image>
    requires c < h.channels
  {
    Reshape(Strided(samples, c, h.channels), h.height, h.width)
  }

  /** Where pixel (r, col) of channel c sits among the interleaved samples. */
  function SampleIndex(h: Header, c: nat, r: nat, col: nat): nat
  {
    (r * h.width + col) * h.channels + c
  }

  /** Pixel (r, col) of channel c is sample (r*width + col)*channels + c. */
  lemma ChannelImageAt(samples: seq<int>, h: Header, c: nat, r: nat, col: nat)
    requires c < h.channels && ChannelImage(samples, h, c).Some?
    requires r < h.height && col < h.width
    ensures var img := ChannelImage(samples, h, c).value;
            && r < |img| && col < |img[r]|
            && SampleIndex(h, c, r, col) < |samples|
            && img[r][col] == samples[SampleIndex(h, c, r, col)]
  {
    var s := Strided(samples, c, h.channels);
    ReshapeAt(s, h.height, h.width, r, col);
    StridedAt(samples, c, h.channels, r * h.width + col);
  }

  lemma DivBounds(x: int, d: int)
    requires d >= 1
    ensures d * (x / d) <= x < d * (x / d) + d
  {
  }

  /** The length numpy gives `s[c::C]` for a sequence of length L. */
  function StridedCount(L: nat, c: nat, C: nat): nat
    requires C >= 1
  {
    if c < L then (L - c + C - 1) / C else 0
  }

  /** When L == C*n every stride class c < C has exactly n members. */
  lemma StridedCountExact(L: nat, c: nat, C: nat, n: nat)
    requires C >= 1 && c < C && L == C * n
    ensures StridedCount(L, c, C) == n
  {
    if c < L {
      assert n >= 1;
      assert n * C <= L - c + C - 1 < (n + 1) * C;
      DivBetween(L - c + C - 1, C, n);
    } else {
      assert n == 0 by {
        if n >= 1 { MulMonotone(1, n, C); }
      }
    }
  }

  /** When the first and the last stride class both have n members, L == C*n. */
  lemma StridedCountEnds(L: nat, C: nat, n: nat)
    requires C >= 1
    requires StridedCount(L, 0, C) == n && StridedCount(L, C - 1, C) == n
    ensures L == C * n
  {
    if L > 0 {
      DivBounds(L + C - 1, C);
      assert C * n <= L + C - 1 < C * n + C;
      if C - 1 < L {
        assert L - (C - 1) + C - 1 == L;
        DivBounds(L, C);
      } else {
        assert n == 0;
      }
    }
  }

  /**
   * Every channel reshapes exactly when the frame holds channels * height *
   * width samples.
   */
  lemma AllChannelsFit(samples: seq<int>, h: Header)
    requires h.channels >= 1
    ensures (forall c :: 0 <= c < h.channels ==> ChannelImage(samples, h, c).Some?)
        <==> |samples| == h.channels * (h.height * h.width)
  {
    var C, n, L := h.channels, h.height * h.width, |samples|;
    if L == C * n {
      forall c | 0 <= c < C
        ensures ChannelImage(samples, h, c).Some?
      {
        StridedLength(samples, c, C);
        StridedCountExact(L, c, C, n);
      }
    }
    if forall c :: 0 <= c < C ==> ChannelImage(samples, h, c).Some? {
      assert ChannelImage(samples, h, 0).Some?;
      assert ChannelImage(samples, h, C - 1).Some?;
      StridedLength(samples, 0, C);
      StridedLength(samples, C - 1, C);
      StridedCountEnds(L, C, n);
    }
  }

  /** Where the displayed viewport starts: (0, 0) in fast mode, else (15, 5). */
  function ViewOrigin(fast: bool): (nat, nat)
  {
    if fast then (0, 0) else (15, 5)
  }

  /** The displayed crop: 400 rows by 480 columns from the origin, clipped to the image. */
  function Viewport(img: Image, fast: bool): Image
  {
    var (r0, c0) := ViewOrigin(fast);
    Crop(img, r0, r0 + 400, c0, c0 + 480)
  }

  /**
   * Every viewport pixel is the image pixel offset by the origin, and a
   * viewport of an image large enough is exactly 400 by 480.
   */
  lemma ViewportAt(img: Image, fast: bool, i: nat, j: nat)
    requires i < |Viewport(img, fast)| && j < |Viewport(img, fast)[i]|
    ensures ViewOrigin(fast).0 + i < |img| && ViewOrigin(fast).1 + j < |img[ViewOrigin(fast).0 + i]|
    ensures Viewport(img, fast)[i][j] == img[ViewOrigin(fast).0 + i][ViewOrigin(fast).1 + j]
  {
    var (r0, c0) := ViewOrigin(fast);
    CropAt(img, r0, r0 + 400, c0, c0 + 480, i, j);
  }

  lemma ViewportSize(img: Image, fast: bool)
    requires |img| >= ViewOrigin(fast).0 + 400
    requires forall r :: 0 <= r < |img| ==> |img[r]| >= ViewOrigin(fast).1 + 480
    ensures |Viewport(img, fast)| == 400
    ensures forall i :: 0 <= i < 400 ==> |Viewport(img, fast)[i]| == 480
  {
  }

  // ------------------------------------------------------------ queues

  /** What a channel queue or a recorder queue holds: the frame header and an image. */
  datatype Item = Item(header: Header, image: Image)

  /** One display queue and one recorder queue per channel. */
  datatype Queues = Queues(channel: seq<seq<Item>>, recorder: seq<seq<Item>>)

  /** The item channel c contributes to its display queue (none when it does not reshape). */
  function ViewItem(samples: seq<int>, h: Header, fast: bool, c: nat): seq<Item>
    requires c < h.channels
  {
    match ChannelImage(samples, h, c)
    case None => []
    case Some(img) => [Item(h, Viewport(img, fast))]
  }

  /** The item channel c contributes to its recorder queue (none when it does not reshape). */
  function RecordItem(samples: seq<int>, h: Header, c: nat): seq<Item>
    requires c < h.channels
  {
    match ChannelImage(samples, h, c)
    case None => []
    case Some(img) => [Item(h, img)]
  }

  /** Channel c goes through: it reshapes and it has its queues. */
  predicate ChannelOk(samples: seq<int>, h: Header, nChannel: nat, nRecorder: nat, recording: bool, c: nat)
    requires c < h.channels
  {
    ChannelImage(samples, h, c).Some? && c < nChannel && (recording ==> c < nRecorder)
  }

  /** The first channel from c on that does not go through, or `channels` when all do. */
  function FirstBad(samples: seq<int>, h: Header, nChannel: nat, nRecorder: nat, recording: bool, c: nat): (f: nat)
    requires c <= h.channels
    ensures c <= f <= h.channels
    ensures forall i :: c <= i < f ==> ChannelOk(samples, h, nChannel, nRecorder, recording, i)
    ensures f < h.channels ==> !ChannelOk(samples, h, nChannel, nRecorder, recording, f)
    decreases h.channels - c
  {
    if c == h.channels then c
    else if !ChannelOk(samples, h, nChannel, nRecorder, recording, c) then c
    else FirstBad(samples, h, nChannel, nRecorder, recording, c + 1)
  }

  function AppendAt(qs: seq<seq<Item>>, c: nat, items: seq<Item>): (r: seq<seq<Item>>)
    requires c < |qs|
    ensures |r| == |qs|
  {
    qs[c := qs[c] + items]
  }

  /**
   * The channel loop from channel c on: reshape, push the viewport to the
   * display queue, push the whole image to the recorder queue while
   * recording. The first failure (a reshape error or a missing queue) stops
   * the loop with what was pushed so far; the flag says whether the loop
   * ran to the end.
   */
  function PushFrom(q: Queues, samples: seq<int>, h: Header, fast: bool, recording: bool, c: nat): (r: (Queues, bool))
    ensures |r.0.channel| == |q.channel| && |r.0.recorder| == |q.recorder|
    decreases h.channels - c
  {
    if c >= h.channels then (q, true)
    else match ChannelImage(samples, h, c)
      case None => (q, false)
      case Some(img) =>
        if c >= |q.channel| then (q, false)
        else
          var q1 := q.(channel := AppendAt(q.channel, c, [Item(h, Viewport(img, fast))]));
          if !recording then PushFrom(q1, samples, h, fast, recording, c + 1)
          else if c >= |q1.recorder| then (q1, false)
          else PushFrom(q1.(recorder := AppendAt(q1.recorder, c, [Item(h, img)])), samples, h, fast, recording, c + 1)
  }

  /**
   * The channel loop runs to the end iff every channel from c on goes
   * through, and it never changes the number of queues.
   */
  lemma {:induction false} PushFromOk(q: Queues, samples: seq<int>, h: Header, fast: bool, recording: bool, c: nat)
    requires c <= h.channels
    ensures var (r, ok) := PushFrom(q, samples, h, fast, recording, c);
            && |r.channel| == |q.channel| && |r.recorder| == |q.recorder|
            && (ok <==> FirstBad(samples, h, |q.channel|, |q.recorder|, recording, c) == h.channels)
    decreases h.channels - c
  {
    if c == h.channels {
      assert PushFrom(q, samples, h, fast, recording, c) == (q, true);
    } else if ChannelOk(samples, h, |q.channel|, |q.recorder|, recording, c) {
      var q2 := PassOne(q, samples, h, fast, recording, c);
      PushFromOk(q2, samples, h, fast, recording, c + 1);
    } else {
      PushStops(q, samples, h, fast, recording, c);
    }
  }

  /** A channel that does not go through ends the loop unsuccessfully, keeping the number of queues. */
  lemma PushStops(q: Queues, samples: seq<int>, h: Header, fast: bool, recording: bool, c: nat)
    requires c < h.channels && !ChannelOk(samples, h, |q.channel|, |q.recorder|, recording, c)
    ensures var (r, ok) := PushFrom(q, samples, h, fast, recording, c);
            && |r.channel| == |q.channel| && |r.recorder| == |q.recorder| && !ok
    ensures FirstBad(samples, h, |q.channel|, |q.recorder|, recording, c) == c
  {
  }

  /**
   * Display queue i gains its channel's item exactly when i lies between c
   * and the first failing channel, that one included (it still pushes its
   * viewport when only its recorder queue is missing); otherwise it keeps
   * its contents.
   */
  lemma {:induction false} PushFromChannelQueue(q: Queues, samples: seq<int>, h: Header, fast: bool, recording: bool, c: nat, i: nat)
    requires c <= h.channels && i < |q.channel|
    ensures PushFrom(q, samples, h, fast, recording, c).0.channel[i]
         == q.channel[i] + ViewRun(samples, h, fast, c, FirstBad(samples, h, |q.channel|, |q.recorder|, recording, c), i)
    decreases h.channels - c, 1
  {
    if c < h.channels && ChannelOk(samples, h, |q.channel|, |q.recorder|, recording, c) {
      ChannelQueuePasses(q, samples, h, fast, recording, c, i);
    } else if c < h.channels && ChannelImage(samples, h, c).Some? && c < |q.channel| {
      ChannelQueueNoRecorder(q, samples, h, fast, recording, c, i);
    } else {
      assert PushFrom(q, samples, h, fast, recording, c).0 == q;
      assert c < h.channels ==> FirstBad(samples, h, |q.channel|, |q.recorder|, recording, c) == c;
    }
  }

  /** The display-queue step when channel c goes through. */
  lemma {:induction false} ChannelQueuePasses(q: Queues, samples: seq<int>, h: Header, fast: bool, recording: bool, c: nat, i: nat)
    requires c < h.channels && i < |q.channel| && ChannelOk(samples, h, |q.channel|, |q.recorder|, recording, c)
    ensures PushFrom(q, samples, h, fast, recording, c).0.channel[i]
         == q.channel[i] + ViewRun(samples, h, fast, c, FirstBad(samples, h, |q.channel|, |q.recorder|, recording, c), i)
    decreases h.channels - c, 0
  {
    var f := FirstBad(samples, h, |q.channel|, |q.recorder|, recording, c);
    var q2 := PassOne(q, samples, h, fast, recording, c);
    assert q2.channel[i] == q.channel[i] + (if i == c then ViewItem(samples, h, fast, c) else []);
    PushFromChannelQueue(q2, samples, h, fast, recording, c + 1, i);
    ViewRunStep(samples, h, fast, c, f, i);
    AppendAssoc(q.channel[i], if i == c then ViewItem(samples, h, fast, c) else [], ViewRun(samples, h, fast, c + 1, f, i));
  }

  /** The queues after channel c goes through, from which the loop carries on at c + 1. */
  lemma PassOne(q: Queues, samples: seq<int>, h: Header, fast: bool, recording: bool, c: nat) returns (q2: Queues)
    requires c < h.channels && ChannelOk(samples, h, |q.channel|, |q.recorder|, recording, c)
    ensures |q2.channel| == |q.channel| && |q2.recorder| == |q.recorder|
    ensures q2.channel == AppendAt(q.channel, c, ViewItem(samples, h, fast, c))
    ensures PushFrom(q, samples, h, fast, recording, c) == PushFrom(q2, samples, h, fast, recording, c + 1)
    ensures FirstBad(samples, h, |q.channel|, |q.recorder|, recording, c)
         == FirstBad(samples, h, |q2.channel|, |q2.recorder|, recording, c + 1)
  {
    var img := ChannelImage(samples, h, c).value;
    var view := [Item(h, Viewport(img, fast))];
    assert ViewItem(samples, h, fast, c) == view;
    var q1 := q.(channel := AppendAt(q.channel, c, view));
    q2 := if recording then q1.(recorder := AppendAt(q1.recorder, c, [Item(h, img)])) else q1;
  }

  /** The display-queue step when channel c reshapes but has no recorder queue while recording. */
  lemma ChannelQueueNoRecorder(q: Queues, samples: seq<int>, h: Header, fast: bool, recording: bool, c: nat, i: nat)
    requires c < h.channels && i < |q.channel| && ChannelImage(samples, h, c).Some? && c < |q.channel|
    requires !ChannelOk(samples, h, |q.channel|, |q.recorder|, recording, c)
    ensures PushFrom(q, samples, h, fast, recording, c).0.channel[i]
         == q.channel[i] + ViewRun(samples, h, fast, c, FirstBad(samples, h, |q.channel|, |q.recorder|, recording, c), i)
  {
    var img := ChannelImage(samples, h, c).value;
    var view := [Item(h, Viewport(img, fast))];
    assert ViewItem(samples, h, fast, c) == view;
    var q1 := q.(channel := AppendAt(q.channel, c, view));
    assert PushFrom(q, samples, h, fast, recording, c) == (q1, false);
    assert FirstBad(samples, h, |q.channel|, |q.recorder|, recording, c) == c;
  }

  /** The display items of channels c..f (f included), as far as they exist, that land in queue i. */
  function ViewRun(samples: seq<int>, h: Header, fast: bool, c: nat, f: nat, i: nat): seq<Item>
  {
    if c <= i <= f && i < h.channels then ViewItem(samples, h, fast, i) else []
  }

  /** Channel c's own item followed by those of the later channels is the run from c on. */
  lemma ViewRunStep(samples: seq<int>, h: Header, fast: bool, c: nat, f: nat, i: nat)
    requires c <= f && c < h.channels
    ensures ViewRun(samples, h, fast, c, f, i)
         == (if i == c then ViewItem(samples, h, fast, c) else []) + ViewRun(samples, h, fast, c + 1, f, i)
  {
  }

  lemma AppendAssoc(a: seq<Item>, b: seq<Item>, d: seq<Item>)
    ensures (a + b) + d == a + (b + d)
  {
  }

  /**
   * While recording, recorder queue i gains its channel's whole image
   * exactly when i lies between c and the first failing channel, that one
   * excluded; otherwise it keeps its contents.
   */
  lemma {:induction false} PushFromRecorderQueue(q: Queues, samples: seq<int>, h: Header, fast: bool, recording: bool, c: nat, i: nat)
    requires c <= h.channels && i < |q.recorder|
    ensures PushFrom(q, samples, h, fast, recording, c).0.recorder[i]
         == q.recorder[i] + (if recording && c <= i < FirstBad(samples, h, |q.channel|, |q.recorder|, recording, c) then RecordItem(samples, h, i) else [])
    decreases h.channels - c
  {
    if c < h.channels && ChannelImage(samples, h, c).Some? && c < |q.channel| {
      var img := ChannelImage(samples, h, c).value;
      var q1 := q.(channel := AppendAt(q.channel, c, [Item(h, Viewport(img, fast))]));
      assert ChannelOk(samples, h, |q.channel|, |q.recorder|, recording, c) <==> (!recording || c < |q.recorder|);
      if !recording {
        PushFromRecorderQueue(q1, samples, h, fast, recording, c + 1, i);
      } else if c < |q.recorder| {
        var q2 := q1.(recorder := AppendAt(q1.recorder, c, [Item(h, img)]));
        assert FirstBad(samples, h, |q.channel|, |q.recorder|, recording, c)
            == FirstBad(samples, h, |q2.channel|, |q2.recorder|, recording, c + 1);
        PushFromRecorderQueue(q2, samples, h, fast, recording, c + 1, i);
        assert q2.recorder[i] == q.recorder[i] + (if i == c then RecordItem(samples, h, i) else []);
      } else {
        assert FirstBad(samples, h, |q.channel|, |q.recorder|, recording, c) == c;
      }
    } else {
      assert PushFrom(q, samples, h, fast, recording, c).0 == q;
    }
  }

  /** The scan for a failing channel reaches the end iff every channel goes through. */
  lemma FirstBadIsEnd(samples: seq<int>, h: Header, nChannel: nat, nRecorder: nat, recording: bool)
    ensures FirstBad(samples, h, nChannel, nRecorder, recording, 0) == h.channels
        <==> forall i :: 0 <= i < h.channels ==> ChannelOk(samples, h, nChannel, nRecorder, recording, i)
  {
  }

  /**
   * Every channel goes through iff the frame holds channels * height * width
   * samples and there is a display queue (and, while recording, a recorder
   * queue) for every channel.
   */
  lemma ChannelsOkIff(samples: seq<int>, h: Header, nChannel: nat, nRecorder: nat, recording: bool)
    requires h.channels >= 1
    ensures (forall i :: 0 <= i < h.channels ==> ChannelOk(samples, h, nChannel, nRecorder, recording, i))
        <==> (|samples| == h.channels * (h.height * h.width)
              && h.channels <= nChannel
              && (recording ==> h.channels <= nRecorder))
  {
    AllChannelsFit(samples, h);
    if forall i :: 0 <= i < h.channels ==> ChannelOk(samples, h, nChannel, nRecorder, recording, i) {
      assert ChannelOk(samples, h, nChannel, nRecorder, recording, h.channels - 1);
      forall c | 0 <= c < h.channels
        ensures ChannelImage(samples, h, c).Some?
      {
        assert ChannelOk(samples, h, nChannel, nRecorder, recording, c);
      }
    }
    if |samples| == h.channels * (h.height * h.width) && h.channels <= nChannel && (recording ==> h.channels <= nRecorder) {
      forall i | 0 <= i < h.channels
        ensures ChannelOk(samples, h, nChannel, nRecorder, recording, i)
      {
      }
    }
  }

  /** The whole channel loop of one frame runs to the end iff the frame has the right size and its queues. */
  lemma PushFramesIff(q: Queues, samples: seq<int>, h: Header, fast: bool, recording: bool)
    requires h.channels >= 1
    ensures PushFrom(q, samples, h, fast, recording, 0).1
        <==> (|samples| == h.channels * (h.height * h.width)
              && h.channels <= |q.channel|
              && (recording ==> h.channels <= |q.recorder|))
  {
    PushFromOk(q, samples, h, fast, recording, 0);
    FirstBadIsEnd(samples, h, |q.channel|, |q.recorder|, recording);
    ChannelsOkIff(samples, h, |q.channel|, |q.recorder|, recording);
  }
}
