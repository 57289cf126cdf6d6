/**
 * The capture recorder of the stream decoder: arming from a capture
 * request (count and output path), the file names of saved channel images,
 * and the reduction of samples to 8-bit pixels.
 */
module Recording {
  import opened Wrappers
  import opened Bytes
  import opened Text
  import opened Grid
  import opened FrameReassembly
  import opened StreamDemux

  /** A capture request: how many frames, and the output path. */
  datatype CaptureRequest = CaptureRequest(frames: int, filename: string)

  /** The recorder fields of the stream decoder. */
  datatype Recorder = Recorder(remaining: int, several: bool, outputDir: string, baseFilename: string, uniqueId: nat)

  /** A channel image handed to the image writer: its file name and its 8-bit pixels. */
  datatype SavedImage = SavedImage(name: string, pixels: Image)

  const InitialRecorder := Recorder(0, false, "", "", 0)

  // ------------------------------------------------------------ output path

  /**
   * The output directory and base name of a capture path: "" and a path
   * without '/' use the base name "default"; otherwise everything before
   * the last '/' is the directory and what follows it the base name.
   */
  function SplitPath(filename: string): (string, string)
  {
    var parts := Split(filename, '/');
    if filename == "" then ("", "default")
    else if |parts| == 1 then (parts[0], "default")
    else (Join(parts[..|parts| - 1], '/'), parts[|parts| - 1])
  }

  /**
   * A path without '/' is all directory; a path with one is exactly its
   * directory, a '/', and a base name containing no '/'.
   */
  lemma SplitPathParts(filename: string)
    ensures '/' !in filename ==> SplitPath(filename) == (filename, "default")
    ensures '/' in filename ==>
      var (dir, base) := SplitPath(filename);
      dir + "/" + base == filename && '/' !in base
  {
    if '/' in filename {
      SplitPathWithSlash(filename);
    } else {
      assert Split(filename, '/') == [filename];
    }
  }

  lemma SplitPathWithSlash(filename: string)
    requires '/' in filename
    ensures var (dir, base) := SplitPath(filename);
            dir + "/" + base == filename && '/' !in base
  {
    var parts := Split(filename, '/');
    SplitTwo(filename, '/');
    var dir, base := Join(parts[..|parts| - 1], '/'), parts[|parts| - 1];
    assert SplitPath(filename) == (dir, base);
    JoinLast(parts, '/');
    JoinSplit(filename, '/');
    assert dir + "/" + base == filename;
    assert '/' !in base;
  }

  // ------------------------------------------------------------ file names

  /** The underscore-separated fields of a capture file name. */
  function NameFields(dir: string, base: string, c: nat, w: nat, h: nat, several: bool, remaining: int, id: nat): seq<string>
  {
    [dir + "/" + base, NatToString(c), NatToString(w), NatToString(h)]
    + (if several then [IntToString(remaining)] else [])
    + [NatToString(id) + ".png"]
  }

  /**
   * `<dir>/<base>_<c>_<w>_<h>[_<remaining>]_<id>.png`, the remaining count
   * present only for a capture of several frames.
   */
  function CaptureName(dir: string, base: string, c: nat, w: nat, h: nat, several: bool, remaining: int, id: nat): string
  {
    Join(NameFields(dir, base, c, w, h, several, remaining, id), '_')
  }

  lemma NoUnderscoreInDigits(n: nat)
    ensures '_' !in NatToString(n)
    ensures '_' !in NatToString(n) + ".png"
  {
    var d := NatToString(n);
    forall k | 0 <= k < |d|
      ensures d[k] != '_'
    {
      assert IsDigit(d[k]);
    }
    var t := d + ".png";
    forall k | 0 <= k < |t|
      ensures t[k] != '_'
    {
      if k < |d| {
        assert t[k] == d[k];
      }
    }
  }

  lemma NoUnderscoreInNumber(n: int)
    ensures '_' !in IntToString(n)
  {
    if n < 0 {
      NoUnderscoreInDigits(-n);
      assert IntToString(n) == "-" + NatToString(-n);
    } else {
      NoUnderscoreInDigits(n);
    }
  }

  /**
   * When the directory and base name hold no '_', a capture file name splits
   * on '_' back into its fields, so channel, size, remaining count and
   * unique id can be read back from it.
   */
  lemma CaptureNameFields(dir: string, base: string, c: nat, w: nat, h: nat, several: bool, remaining: int, id: nat)
    requires '_' !in dir && '_' !in base
    ensures Split(CaptureName(dir, base, c, w, h, several, remaining, id), '_')
         == NameFields(dir, base, c, w, h, several, remaining, id)
  {
    var fields := NameFields(dir, base, c, w, h, several, remaining, id);
    assert '_' !in dir + "/" + base by {
      forall k | 0 <= k < |dir + "/" + base|
        ensures (dir + "/" + base)[k] != '_'
      {
        if k < |dir| {
          assert (dir + "/" + base)[k] == dir[k];
        } else if k > |dir| {
          assert (dir + "/" + base)[k] == base[k - |dir| - 1];
        }
      }
    }
    NoUnderscoreInDigits(c);
    NoUnderscoreInDigits(w);
    NoUnderscoreInDigits(h);
    NoUnderscoreInNumber(remaining);
    NoUnderscoreInDigits(id);
    SplitJoin(fields, '_');
  }

  /**
   * Because the unique id is never reset, two saved images of the same
   * directory, base name, channel and size never share a file name unless
   * their ids (and remaining counts) agree.
   */
  lemma CaptureNamesDistinct(dir: string, base: string, c: nat, w: nat, h: nat, several: bool,
                             remaining1: int, id1: nat, remaining2: int, id2: nat)
    requires '_' !in dir && '_' !in base
    requires CaptureName(dir, base, c, w, h, several, remaining1, id1)
          == CaptureName(dir, base, c, w, h, several, remaining2, id2)
    ensures id1 == id2
    ensures several ==> remaining1 == remaining2
  {
    CaptureNameFields(dir, base, c, w, h, several, remaining1, id1);
    CaptureNameFields(dir, base, c, w, h, several, remaining2, id2);
    var f1 := NameFields(dir, base, c, w, h, several, remaining1, id1);
    var f2 := NameFields(dir, base, c, w, h, several, remaining2, id2);
    assert f1 == f2;
    var a, b := NatToString(id1), NatToString(id2);
    assert f1[|f1| - 1] == a + ".png" && f2[|f2| - 1] == b + ".png";
    assert a == b by {
      assert |a| == |b|;
      assert a == (a + ".png")[..|a|] && b == (b + ".png")[..|b|];
    }
    DigitsValueNatToString(id1);
    DigitsValueNatToString(id2);
    if several {
      assert f1[4] == IntToString(remaining1) && f2[4] == IntToString(remaining2);
      IntToStringInjective(remaining1, remaining2);
    }
  }

  lemma NatToStringInjective(a: nat, b: nat)
    requires NatToString(a) == NatToString(b)
    ensures a == b
  {
    DigitsValueNatToString(a);
    DigitsValueNatToString(b);
  }

  /** The text of an integer starts with '-' exactly when it is negative. */
  lemma IntToStringSign(n: int)
    ensures |IntToString(n)| >= 1 && (IntToString(n)[0] == '-' <==> n < 0)
  {
    if n >= 0 {
      assert IsDigit(NatToString(n)[0]);
    }
  }

  lemma IntToStringInjective(a: int, b: int)
    requires IntToString(a) == IntToString(b)
    ensures a == b
  {
    IntToStringSign(a);
    IntToStringSign(b);
    var s := IntToString(a);
    if a < 0 && b < 0 {
      assert NatToString(-a) == s[1..] == NatToString(-b);
      NatToStringInjective(-a, -b);
    } else if a >= 0 && b >= 0 {
      NatToStringInjective(a, b);
    }
  }

  // ------------------------------------------------------------ pixels

  /** `(v >> (data_width - 8)).astype(uint8)`: shift right, then wrap to a byte. */
  function ReducePixel(v: int, dataWidth: nat): byte
    requires dataWidth >= 8
  {
    (v / Pow2(dataWidth - 8)) % 256
  }

  /** A sample that fits its data width keeps exactly its top 8 bits. */
  lemma ReducePixelTopByte(v: nat, dataWidth: nat)
    requires dataWidth >= 8 && v < Pow2(dataWidth)
    ensures ReducePixel(v, dataWidth) == v / Pow2(dataWidth - 8)
  {
    var d := Pow2(dataWidth - 8);
    Pow2Add(dataWidth - 8, 8);
    assert dataWidth - 8 + 8 == dataWidth;
    assert Pow2(8) == 256;
    QuotientBelow(v, d);
  }

  lemma QuotientBelow(v: nat, d: nat)
    requires d >= 1 && v < d * 256
    ensures 0 <= v / d < 256
  {
    DivBounds(v, d);
    var q := v / d;
    MulMonotone(256, if q >= 256 then q else 256, d);
  }

  /** Every pixel of a channel image reduced to 8 bits. */
  function ReduceImage(img: Image, dataWidth: nat): (r: Image)
    requires dataWidth >= 8
    ensures |r| == |img|
    ensures forall i :: 0 <= i < |r| ==> |r[i]| == |img[i]|
    ensures forall i, j :: 0 <= i < |r| && 0 <= j < |r[i]| ==> r[i][j] == ReducePixel(img[i][j], dataWidth)
  {
    seq(|img|, i requires 0 <= i < |img| =>
      seq(|img[i]|, j requires 0 <= j < |img[i]| => ReducePixel(img[i][j], dataWidth) as int))
  }

  /**
   * The combine shift as written turns 16-bit samples into b0 * 65536 + b1,
   * so every recorded pixel of a 16-bit frame comes out 0.
   */
  lemma SixteenBitPixelsAsWritten(b0: byte, b1: byte)
    ensures RowValue([b0, b1], 16) == b0 * 65536 + b1
    ensures ReducePixel(RowValue([b0, b1], 16), 16) == 0
  {
    assert [b0, b1][1..] == [b1];
    assert [b1][1..] == [];
    Pow256IsPow2(2);
    assert Pow256(2) == 65536;
    assert RowValue([b1], 16) == b1;
    assert Pow2(8) == 256;
    var v := b0 * 65536 + b1;
    assert (b0 * 256) * 256 <= v < (b0 * 256 + 1) * 256;
    DivBetween(v, 256, b0 * 256);
  }

  /** With the corrected 8-bit shift unit a 16-bit sample reduces to its high byte. */
  lemma SixteenBitPixelsIntended(b0: byte, b1: byte)
    ensures RowValue([b0, b1], 8) == b0 * 256 + b1
    ensures ReducePixel(RowValue([b0, b1], 8), 16) == b0
  {
    assert [b0, b1][1..] == [b1];
    assert [b1][1..] == [];
    assert Pow2(8) == 256;
    assert RowValue([b1], 8) == b1;
    var v := b0 * 256 + b1;
    assert b0 * 256 <= v < (b0 + 1) * 256;
    DivBetween(v, 256, b0);
  }

  // ------------------------------------------------------------ the recorder

  /**
   * `setup_record_request`: a request arms the recorder with its frame
   * count, marks a capture of several frames when the count is at least 2,
   * and takes directory and base name from its path; the unique id is kept.
   * Without a request nothing changes.
   */
  function Setup(r: Recorder, req: Option<CaptureRequest>): (r': Recorder)
    ensures r'.uniqueId == r.uniqueId
    ensures req.None? ==> r' == r
    ensures req.Some? ==> r'.remaining == req.value.frames && (r'.several <==> req.value.frames >= 2)
    ensures req.Some? ==> (r'.outputDir, r'.baseFilename) == SplitPath(req.value.filename)
  {
    match req
    case None => r
    case Some(q) =>
      var (dir, base) := SplitPath(q.filename);
      Recorder(q.frames, q.frames >= 2, dir, base, r.uniqueId)
  }

  /** What a capture step needs: a queued image for every channel. */
  predicate ReadyToStep(rq: seq<seq<Item>>, h: Header)
  {
    h.channels <= |rq| && h.dataWidth >= 8 && forall c :: 0 <= c < h.channels ==> |rq[c]| >= 1
  }

  /** The name and pixels saved for channel c in a capture step. */
  function SavedFor(rq: seq<seq<Item>>, r: Recorder, h: Header, c: nat): SavedImage
    requires ReadyToStep(rq, h) && c < h.channels
  {
    SavedImage(CaptureName(r.outputDir, r.baseFilename, c, h.width, h.height, r.several, r.remaining - 1, r.uniqueId),
               ReduceImage(rq[c][0].image, h.dataWidth))
  }

  /**
   * An image with no pixels: no rows, or rows without columns (the images
   * are rectangular, as NumPy arrays are). `cv2.imwrite` raises on such an
   * image; the 8-bit reduction keeps the shape, so it is the popped image
   * that decides.
   */
  predicate NoPixels(img: Image)
  {
    |img| == 0 || |img[0]| == 0
  }

  /** The first channel from c on whose front image has no pixels, or `channels` when none has. */
  function FirstUnwritable(rq: seq<seq<Item>>, h: Header, c: nat): (e: nat)
    requires ReadyToStep(rq, h) && c <= h.channels
    ensures c <= e <= h.channels
    ensures forall i :: c <= i < e ==> !NoPixels(rq[i][0].image)
    ensures e < h.channels ==> NoPixels(rq[e][0].image)
    decreases h.channels - c
  {
    if c == h.channels then c
    else if NoPixels(rq[c][0].image) then c
    else FirstUnwritable(rq, h, c + 1)
  }

  /**
   * `step_record_request`: count one frame down, then for each channel in
   * turn pop the front image of its recorder queue and save it under its
   * capture name. Writing an image without pixels raises, which ends the
   * step right after that channel's pop: later channels keep their queues
   * and the unique id is not advanced. Otherwise the unique id advances.
   * Queues of channels beyond `channels` are left alone. The flag says
   * whether the step ran to the end.
   */
  function RecordStep(rq: seq<seq<Item>>, r: Recorder, h: Header): (res: (seq<seq<Item>>, Recorder, seq<SavedImage>, bool))
    requires ReadyToStep(rq, h)
    ensures |res.0| == |rq| && |res.2| <= h.channels
    ensures res.3 <==> |res.2| == h.channels
    ensures res.3 <==> forall c :: 0 <= c < h.channels ==> !NoPixels(rq[c][0].image)
    ensures !res.3 ==> NoPixels(rq[|res.2|][0].image)
    ensures forall c :: 0 <= c < |rq| ==> res.0[c] == if c < h.channels && c <= |res.2| then rq[c][1..] else rq[c]
    ensures res.1 == r.(remaining := r.remaining - 1, uniqueId := r.uniqueId + if res.3 then 1 else 0)
    ensures forall c :: 0 <= c < |res.2| ==> res.2[c] == SavedFor(rq, r, h, c) && !NoPixels(rq[c][0].image)
  {
    var e := FirstUnwritable(rq, h, 0);
    (Popped(rq, h, e + 1),
     r.(remaining := r.remaining - 1, uniqueId := r.uniqueId + if e == h.channels then 1 else 0),
     SavedUpTo(rq, r, h, e),
     e == h.channels)
  }

  /** The recorder queues once the channels below k (and below `channels`) have given up their front. */
  function Popped(rq: seq<seq<Item>>, h: Header, k: nat): (p: seq<seq<Item>>)
    requires ReadyToStep(rq, h)
    ensures |p| == |rq|
    ensures forall c :: 0 <= c < |rq| ==> p[c] == if c < h.channels && c < k then rq[c][1..] else rq[c]
  {
    seq(|rq|, c requires 0 <= c < |rq| => if c < h.channels && c < k then rq[c][1..] else rq[c])
  }

  /** The images saved for the channels below k. */
  function SavedUpTo(rq: seq<seq<Item>>, r: Recorder, h: Header, k: nat): (saved: seq<SavedImage>)
    requires ReadyToStep(rq, h) && k <= h.channels
    ensures |saved| == k
    ensures forall c :: 0 <= c < k ==> saved[c] == SavedFor(rq, r, h, c)
  {
    seq(k, c requires 0 <= c < k => SavedFor(rq, r, h, c))
  }

  /** A step whose channels below c have pixels and whose channel c has none stops at c. */
  lemma StepStops(rq: seq<seq<Item>>, r: Recorder, h: Header, c: nat)
    requires ReadyToStep(rq, h) && c < h.channels && c <= FirstUnwritable(rq, h, 0) && NoPixels(rq[c][0].image)
    ensures RecordStep(rq, r, h) == (Popped(rq, h, c + 1), r.(remaining := r.remaining - 1), SavedUpTo(rq, r, h, c), false)
  {
    assert FirstUnwritable(rq, h, 0) == c;
  }

  /**
   * A step whose first channel holds a single image without pixels pops that
   * image, counts down and fails before saving anything.
   */
  lemma StepFailsFirst(rq: seq<seq<Item>>, r: Recorder, h: Header)
    requires ReadyToStep(rq, h) && h.channels >= 1 && |rq[0]| == 1 && NoPixels(rq[0][0].image)
    ensures RecordStep(rq, r, h) == (rq[0 := []], r.(remaining := r.remaining - 1), [], false)
  {
    StepStops(rq, r, h, 0);
    assert Popped(rq, h, 1) == rq[0 := []];
  }

  /** A step in which every channel's front image has pixels completes. */
  lemma StepCompletes(rq: seq<seq<Item>>, r: Recorder, h: Header)
    requires ReadyToStep(rq, h) && FirstUnwritable(rq, h, 0) == h.channels
    ensures RecordStep(rq, r, h) ==
              (Popped(rq, h, h.channels), r.(remaining := r.remaining - 1, uniqueId := r.uniqueId + 1), SavedUpTo(rq, r, h, h.channels), true)
  {
    assert Popped(rq, h, h.channels + 1) == Popped(rq, h, h.channels);
  }

  /** Popping channel k's front extends the popped prefix by one channel. */
  lemma PoppedStep(rq: seq<seq<Item>>, h: Header, k: nat)
    requires ReadyToStep(rq, h) && k < h.channels
    ensures Popped(rq, h, k)[k := rq[k][1..]] == Popped(rq, h, k + 1)
  {
  }

  /** Saving channel k's image extends the saved prefix by one image. */
  lemma SavedStep(rq: seq<seq<Item>>, r: Recorder, h: Header, k: nat)
    requires ReadyToStep(rq, h) && k < h.channels
    ensures SavedUpTo(rq, r, h, k) + [SavedFor(rq, r, h, k)] == SavedUpTo(rq, r, h, k + 1)
  {
  }
}
