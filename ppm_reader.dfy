/**
 * The plain-text PPM reader of the green-channel extractor: the comment-
 * stripping token stream, the `P3` header check, the green samples of the
 * pixel triplets (which must be 16-bit), and their row-major reshape.
 */
module PpmReader {
  import opened Wrappers
  import opened Text
  import opened Grid

  /** The `ValueError`s the reader raises, one per check, plus the negative-size error of `np.empty`. */
  datatype PpmError =
    | MissingMagic         // no token at all
    | BadMagic             // first token is not `P3`
    | MissingHeaderField   // fewer than three tokens after the magic
    | NotAnInteger         // `int(tok)` of a token that is not an integer
    | BadDimensions        // width <= 0 or height <= 0
    | BadMaxval            // maxval outside 1..65535
    | NegativePixelCount   // width * height < 0
    | PixelsEnded          // the tokens ran out inside a triplet
    | SampleOutOfRange     // r, g or b outside 0..maxval
    | NotSixteenBit        // maxval other than 65535

  /** Python's iteration over a text file: each line keeps its '\n'; a last line may lack it. */
  function FileLines(text: string): seq<string>
    decreases |text|
  {
    if text == [] then []
    else if '\n' !in text then [text]
    else
      var i := IndexOf(text, '\n');
      [text[..i + 1]] + FileLines(text[i + 1..])
  }

  /** A line ending in its only '\n' comes off the front of the text. */
  lemma FileLinesCons(line: string, rest: string)
    requires |line| >= 1 && line[|line| - 1] == '\n' && '\n' !in line[..|line| - 1]
    ensures FileLines(line + rest) == [line] + FileLines(rest)
  {
    var text := line + rest;
    assert text[|line| - 1] == '\n';
    assert text[..|line| - 1] == line[..|line| - 1];
    var i := IndexOf(text, '\n');
    assert i == |line| - 1;
    assert text[..i + 1] == line;
    assert text[i + 1..] == rest;
  }

  /** `line.split('#', 1)[0]`: the text before the first '#'. */
  function BeforeComment(line: string): (t: string)
    ensures '#' !in t
  {
    if '#' in line then line[..IndexOf(line, '#')] else line
  }

  /** The tokens one line contributes: none when the text before its comment is blank. */
  function LineTokens(line: string): seq<string>
  {
    var t := BeforeComment(line);
    if Strip(t) == [] then [] else Words(t)
  }

  /** `token_stream` over the lines of a file. */
  function TokenStream(lines: seq<string>): (ts: seq<string>)
    ensures forall k :: 0 <= k < |ts| ==> IsWord(ts[k])
  {
    if lines == [] then [] else LineTokens(lines[0]) + TokenStream(lines[1..])
  }

  /**
   * Skipping blank lines changes nothing: each line contributes exactly the
   * whitespace-separated words of its text before the first '#', and those
   * contain no '#'.
   */
  lemma LineTokensWords(line: string)
    ensures LineTokens(line) == Words(BeforeComment(line))
    ensures forall k :: 0 <= k < |LineTokens(line)| ==> '#' !in LineTokens(line)[k]
  {
    var t := BeforeComment(line);
    WordsOfSpace(t);
    WordsNoChar(t, '#');
  }

  /** Words never contain a character the text does not. */
  lemma {:induction false} WordsNoChar(s: string, c: char)
    requires c !in s
    ensures forall k :: 0 <= k < |Words(s)| ==> c !in Words(s)[k]
    decreases |s|
  {
    if s != [] {
      if IsSpace(s[0]) {
        WordsNoChar(s[1..], c);
      } else {
        var n := WordEnd(s, 0);
        WordsNoChar(s[n..], c);
        assert c !in s[..n];
      }
    }
  }

  /** The stream of a file is the streams of its parts, in order. */
  lemma {:induction false} TokenStreamAppend(a: seq<string>, b: seq<string>)
    ensures TokenStream(a + b) == TokenStream(a) + TokenStream(b)
    decreases |a|
  {
    if a == [] {
      AppendEmpty(a, b);
    } else {
      TokenStreamAppend(a[1..], b);
      TokenStreamStep(a, b);
    }
  }

  /** One line more in front of an append: its tokens come first on both sides. */
  lemma TokenStreamStep(a: seq<string>, b: seq<string>)
    requires a != [] && TokenStream(a[1..] + b) == TokenStream(a[1..]) + TokenStream(b)
    ensures TokenStream(a + b) == TokenStream(a) + TokenStream(b)
  {
    AppendFront(a, b);
    SeqAssoc(LineTokens(a[0]), TokenStream(a[1..]), TokenStream(b));
  }

  lemma AppendFront(a: seq<string>, b: seq<string>)
    requires a != []
    ensures a + b != [] && (a + b)[0] == a[0] && (a + b)[1..] == a[1..] + b
  {
  }

  lemma AppendEmpty(a: seq<string>, b: seq<string>)
    requires a == []
    ensures TokenStream(a + b) == TokenStream(a) + TokenStream(b)
  {
    assert a + b == b;
  }

  lemma SeqAssoc(x: seq<string>, y: seq<string>, z: seq<string>)
    ensures x + (y + z) == (x + y) + z
  {
  }

  /** The header fields. */
  datatype PpmHeader = PpmHeader(width: int, height: int, maxval: int)

  /** The number of tokens the header takes. */
  const HeaderTokens := 4

  /** `int(tok)` of every token, in order; `None` where it would raise. */
  function IntTokens(ts: seq<string>): (vs: seq<Option<int>>)
    ensures |vs| == |ts|
  {
    if ts == [] then [] else [ParseInt(ts[0], 10)] + IntTokens(ts[1..])
  }

  lemma {:induction false} IntTokensAt(ts: seq<string>, k: nat)
    requires k < |ts|
    ensures IntTokens(ts)[k] == ParseInt(ts[k], 10)
  {
    if k > 0 {
      IntTokensAt(ts[1..], k - 1);
    }
  }

  lemma {:induction false} IntTokensAppend(ts: seq<string>, extra: seq<string>)
    ensures IntTokens(ts + extra) == IntTokens(ts) + IntTokens(extra)
  {
    if ts == [] {
      assert ts + extra == extra;
    } else {
      assert (ts + extra)[1..] == ts[1..] + extra;
      IntTokensAppend(ts[1..], extra);
    }
  }

  /**
   * `parse_ppm_header`: the magic, then width, height and maxval, each read
   * and converted (`vs` holds `int(tok)` of each token) before the next is
   * read, then the range checks.
   */
  function ParseHeader(ts: seq<string>): (r: Result<PpmHeader, PpmError>)
    ensures r.Success? ==> r.value.width >= 1 && r.value.height >= 1 && 1 <= r.value.maxval <= 65535
  {
    var vs := IntTokens(ts);
    if |ts| < 1 then Failure(MissingMagic)
    else if ts[0] != "P3" then Failure(BadMagic)
    else if |ts| < 2 then Failure(MissingHeaderField)
    else match vs[1]
      case None => Failure(NotAnInteger)
      case Some(width) =>
        if |ts| < 3 then Failure(MissingHeaderField)
        else match vs[2]
          case None => Failure(NotAnInteger)
          case Some(height) =>
            if |ts| < 4 then Failure(MissingHeaderField)
            else match vs[3]
              case None => Failure(NotAnInteger)
              case Some(maxval) =>
                if width <= 0 || height <= 0 then Failure(BadDimensions)
                else if !(1 <= maxval <= 65535) then Failure(BadMaxval)
                else Success(PpmHeader(width, height, maxval))
  }

  /**
   * The header is accepted exactly when the first four tokens are `P3` and
   * three integers with positive dimensions and maxval in 1..65535, and
   * then those are the fields; the two early-end errors and the magic error
   * are told apart.
   */
  lemma ParseHeaderOutcome(ts: seq<string>)
    ensures ParseHeader(ts) == Failure(MissingMagic) <==> ts == []
    ensures ParseHeader(ts) == Failure(BadMagic) <==> |ts| >= 1 && ts[0] != "P3"
    ensures ParseHeader(ts).Success? <==>
              && |ts| >= HeaderTokens && ts[0] == "P3"
              && ParseInt(ts[1], 10).Some? && ParseInt(ts[2], 10).Some? && ParseInt(ts[3], 10).Some?
              && ParseInt(ts[1], 10).value > 0 && ParseInt(ts[2], 10).value > 0
              && 1 <= ParseInt(ts[3], 10).value <= 65535
    ensures ParseHeader(ts).Success? ==>
              ParseHeader(ts).value == PpmHeader(ParseInt(ts[1], 10).value, ParseInt(ts[2], 10).value, ParseInt(ts[3], 10).value)
  {
    if |ts| >= 2 {
      IntTokensAt(ts, 1);
    }
    if |ts| >= 3 {
      IntTokensAt(ts, 2);
    }
    if |ts| >= 4 {
      IntTokensAt(ts, 3);
    }
  }

  /**
   * A header cut short after `P3`: the fields are read and converted one at
   * a time, so a token that is not an integer is reported before the end.
   */
  lemma {:induction false} ParseHeaderShort(ts: seq<string>)
    requires 1 <= |ts| < HeaderTokens && ts[0] == "P3"
    ensures ParseHeader(ts).Failure?
    ensures ParseHeader(ts).error ==
              if (|ts| >= 2 && ParseInt(ts[1], 10).None?) || (|ts| >= 3 && ParseInt(ts[2], 10).None?)
              then NotAnInteger else MissingHeaderField
  {
    if |ts| == 2 {
      HeaderOfTwo(ts);
    } else if |ts| == 3 {
      HeaderOfThree(ts);
    }
  }

  lemma HeaderOfTwo(ts: seq<string>)
    requires |ts| == 2 && ts[0] == "P3"
    ensures ParseHeader(ts) == Failure(if ParseInt(ts[1], 10).None? then NotAnInteger else MissingHeaderField)
  {
    IntTokensAt(ts, 1);
  }

  lemma HeaderOfThree(ts: seq<string>)
    requires |ts| == 3 && ts[0] == "P3"
    ensures ParseHeader(ts) ==
              Failure(if ParseInt(ts[1], 10).None? || ParseInt(ts[2], 10).None? then NotAnInteger else MissingHeaderField)
  {
    IntTokensAt(ts, 1);
    IntTokensAt(ts, 2);
  }

  /**
   * A complete header after `P3` fails on the first check that fails: a
   * field that is not an integer, then the dimensions, then maxval.
   */
  lemma {:induction false} ParseHeaderOrder(ts: seq<string>)
    requires |ts| >= HeaderTokens && ts[0] == "P3" && ParseHeader(ts).Failure?
    ensures ParseHeader(ts).error ==
              (if ParseInt(ts[1], 10).None? || ParseInt(ts[2], 10).None? || ParseInt(ts[3], 10).None? then NotAnInteger
               else if ParseInt(ts[1], 10).value <= 0 || ParseInt(ts[2], 10).value <= 0 then BadDimensions
               else BadMaxval)
  {
    IntTokensAt(ts, 1);
    IntTokensAt(ts, 2);
    IntTokensAt(ts, 3);
  }

  /** A parsed token that is an integer within 0..maxval. */
  predicate SampleIn(v: Option<int>, maxval: int)
  {
    v.Some? && 0 <= v.value <= maxval
  }

  /**
   * The green sample of the triplet at token p, after the range and 16-bit
   * checks. It succeeds only on three in-range integer tokens with maxval
   * 65535, and then it is the middle one.
   */
  function PixelGreen(vs: seq<Option<int>>, p: nat, maxval: int): (g: Result<int, PpmError>)
    ensures g.Success? <==>
              p + 2 < |vs| && maxval == 65535 && SampleIn(vs[p], maxval) && SampleIn(vs[p + 1], maxval) && SampleIn(vs[p + 2], maxval)
    ensures g.Success? ==> vs[p + 1] == Some(g.value)
    ensures p + 2 >= |vs| && g.Failure? ==> g.error in {PixelsEnded, NotAnInteger}
  {
    if p >= |vs| then Failure(PixelsEnded)
    else match vs[p]
      case None => Failure(NotAnInteger)
      case Some(r) =>
        if p + 1 >= |vs| then Failure(PixelsEnded)
        else match vs[p + 1]
          case None => Failure(NotAnInteger)
          case Some(g) =>
            if p + 2 >= |vs| then Failure(PixelsEnded)
            else match vs[p + 2]
              case None => Failure(NotAnInteger)
              case Some(b) =>
                if !(0 <= r <= maxval && 0 <= g <= maxval && 0 <= b <= maxval) then Failure(SampleOutOfRange)
                else if maxval == 65535 then Success(g)
                else Failure(NotSixteenBit)
  }

  /**
   * The green samples of n triplets starting at token p; the first failing
   * triplet decides the error. On success there is one sample per triplet
   * and the triplets lie within the tokens.
   */
  function ReadGreens(vs: seq<Option<int>>, p: nat, n: nat, maxval: int): (r: Result<seq<int>, PpmError>)
    ensures r.Success? ==> |r.value| == n && (n > 0 ==> p + 3 * n <= |vs| && maxval == 65535)
    decreases n
  {
    if n == 0 then Success([])
    else match PixelGreen(vs, p, maxval)
      case Failure(e) => Failure(e)
      case Success(g) =>
        match ReadGreens(vs, p + 3, n - 1, maxval)
          case Failure(e) => Failure(e)
          case Success(rest) => Success([g] + rest)
  }

  /** Samples read so far in front of what the rest of the reading gives. */
  function Prepend(front: seq<int>, r: Result<seq<int>, PpmError>): Result<seq<int>, PpmError>
  {
    match r
      case Failure(e) => Failure(e)
      case Success(rest) => Success(front + rest)
  }

  lemma PrependNone(r: Result<seq<int>, PpmError>)
    ensures Prepend([], r) == r
  {
    if r.Success? {
      assert [] + r.value == r.value;
    }
  }

  lemma PrependStep(front: seq<int>, g: int, r: Result<seq<int>, PpmError>)
    ensures Prepend(front, Prepend([g], r)) == Prepend(front + [g], r)
  {
    if r.Success? {
      assert front + ([g] + r.value) == front + [g] + r.value;
    }
  }

  /** One triplet of the reading: its outcome, then the rest after it. */
  lemma ReadGreensStep(vs: seq<Option<int>>, p: nat, n: nat, maxval: int)
    requires n >= 1
    ensures PixelGreen(vs, p, maxval).Failure? ==> ReadGreens(vs, p, n, maxval) == Failure(PixelGreen(vs, p, maxval).error)
    ensures PixelGreen(vs, p, maxval).Success? ==>
              ReadGreens(vs, p, n, maxval) == Prepend([PixelGreen(vs, p, maxval).value], ReadGreens(vs, p + 3, n - 1, maxval))
  {
  }

  /** What `read_green_channel_uint16` returns or raises. */
  function GreenChannel(ts: seq<string>, start: nat, width: int, height: int, maxval: int): Result<seq<int>, PpmError>
  {
    if width * height < 0 then Failure(NegativePixelCount)
    else ReadGreens(IntTokens(ts), start, width * height, maxval)
  }

  /**
   * `read_green_channel_uint16`: a preallocated array filled pixel by pixel,
   * three tokens per pixel, keeping the middle one. `vs` holds `int(tok)` of
   * each token; the loop looks at a token's value only where the source
   * reads that token, so the errors come in the source's order.
   */
  method ReadGreenChannel(ts: seq<string>, start: nat, width: int, height: int, maxval: int)
    returns (r: Result<seq<int>, PpmError>)
    ensures r == GreenChannel(ts, start, width, height, maxval)
  {
    var npx := width * height;
    if npx < 0 {
      return Failure(NegativePixelCount);
    }
    var vs := IntTokens(ts);
    var greens := new int[npx];
    var p := start;
    PrependNone(ReadGreens(vs, start, npx, maxval));
    assert greens[..0] == [];
    ghost var left: nat := npx;
    for i := 0 to npx
      invariant p == start + 3 * i && left == npx - i
      invariant ReadGreens(vs, start, npx, maxval) == Prepend(greens[..i], ReadGreens(vs, p, left, maxval))
    {
      ReadGreensStep(vs, p, left, maxval);
      ghost var front := greens[..i];
      if p >= |vs| {
        return Failure(PixelsEnded);
      }
      var red := vs[p];
      if red.None? {
        return Failure(NotAnInteger);
      }
      if p + 1 >= |vs| {
        return Failure(PixelsEnded);
      }
      var green := vs[p + 1];
      if green.None? {
        return Failure(NotAnInteger);
      }
      if p + 2 >= |vs| {
        return Failure(PixelsEnded);
      }
      var blue := vs[p + 2];
      if blue.None? {
        return Failure(NotAnInteger);
      }
      var rv, g, b := red.value, green.value, blue.value;
      if !(0 <= rv <= maxval && 0 <= g <= maxval && 0 <= b <= maxval) {
        return Failure(SampleOutOfRange);
      }
      if maxval == 65535 {
        greens[i] := g;
      } else {
        return Failure(NotSixteenBit);
      }
      ghost var rest := ReadGreens(vs, p + 3, left - 1, maxval);
      assert PixelGreen(vs, p, maxval) == Success(g);
      assert ReadGreens(vs, start, npx, maxval) == Prepend(front, Prepend([g], rest));
      PrependStep(front, g, rest);
      assert greens[..i + 1] == front + [g];
      p := p + 3;
      left := left - 1;
    }
    assert greens[..npx] == greens[..];
    assert greens[..] + [] == greens[..];
    return Success(greens[..]);
  }

  /** Sample i of a successful reading is the outcome of triplet i alone. */
  lemma {:induction false} ReadGreensAt(vs: seq<Option<int>>, p: nat, n: nat, maxval: int, i: nat)
    requires ReadGreens(vs, p, n, maxval).Success? && i < n
    ensures PixelGreen(vs, p + 3 * i, maxval) == Success(ReadGreens(vs, p, n, maxval).value[i])
    decreases n
  {
    ReadGreensStep(vs, p, n, maxval);
    if i > 0 {
      ReadGreensAt(vs, p + 3, n - 1, maxval, i - 1);
      assert p + 3 * i == (p + 3) + 3 * (i - 1);
    }
  }

  /**
   * On success, sample i of the green channel is `int` of the middle token
   * of triplet i, and all three tokens of that triplet are integers within
   * 0..maxval.
   */
  lemma GreenChannelAt(ts: seq<string>, start: nat, width: int, height: int, maxval: int, i: nat)
    requires GreenChannel(ts, start, width, height, maxval).Success? && i < width * height
    ensures start + 3 * i + 2 < |ts|
    ensures ParseInt(ts[start + 3 * i + 1], 10) == Some(GreenChannel(ts, start, width, height, maxval).value[i])
    ensures SampleIn(ParseInt(ts[start + 3 * i], 10), maxval)
    ensures SampleIn(ParseInt(ts[start + 3 * i + 1], 10), maxval)
    ensures SampleIn(ParseInt(ts[start + 3 * i + 2], 10), maxval)
  {
    var vs := IntTokens(ts);
    ReadGreensAt(vs, start, width * height, maxval, i);
    var q := start + 3 * i;
    IntTokensAt(ts, q);
    IntTokensAt(ts, q + 1);
    IntTokensAt(ts, q + 2);
  }

  /** Tokens after the last triplet are never looked at. */
  lemma {:induction false} ReadGreensIgnoresTrailing(vs: seq<Option<int>>, extra: seq<Option<int>>, p: nat, n: nat, maxval: int)
    requires p + 3 * n <= |vs|
    ensures ReadGreens(vs + extra, p, n, maxval) == ReadGreens(vs, p, n, maxval)
    decreases n
  {
    if n > 0 {
      assert (vs + extra)[p] == vs[p] && (vs + extra)[p + 1] == vs[p + 1] && (vs + extra)[p + 2] == vs[p + 2];
      assert PixelGreen(vs + extra, p, maxval) == PixelGreen(vs, p, maxval);
      ReadGreensStep(vs, p, n, maxval);
      ReadGreensStep(vs + extra, p, n, maxval);
      ReadGreensIgnoresTrailing(vs, extra, p + 3, n - 1, maxval);
    }
  }

  /** Tokens after the width * height triplets do not change what the green channel is. */
  lemma GreenChannelIgnoresTrailing(ts: seq<string>, extra: seq<string>, start: nat, width: int, height: int, maxval: int)
    requires width * height >= 0 && start + 3 * (width * height) <= |ts|
    ensures GreenChannel(ts + extra, start, width, height, maxval) == GreenChannel(ts, start, width, height, maxval)
  {
    IntTokensAppend(ts, extra);
    ReadGreensIgnoresTrailing(IntTokens(ts), IntTokens(extra), start, width * height, maxval);
  }

  /** Too few tokens for the pixels, or a maxval other than 65535 with any pixel at all, is always an error. */
  lemma GreenChannelFails(ts: seq<string>, start: nat, width: int, height: int, maxval: int)
    requires width * height >= 1
    requires |ts| < start + 3 * (width * height) || maxval != 65535
    ensures GreenChannel(ts, start, width, height, maxval).Failure?
  {
  }

  /** The extractor up to the `.npy` reinterpretation: header, green samples, reshape to height rows of width. */
  function ConvertTokens(ts: seq<string>): Result<Image, PpmError>
  {
    var header := ParseHeader(ts);
    if header.Failure? then Failure(header.error)
    else
      var h := header.value;
      var greens := GreenChannel(ts, HeaderTokens, h.width, h.height, h.maxval);
      if greens.Failure? then Failure(greens.error)
      else Success(Reshape(greens.value, h.height, h.width).value)
  }

  /** The whole extractor on the lines of a file. */
  function ConvertP3(lines: seq<string>): Result<Image, PpmError>
  {
    ConvertTokens(TokenStream(lines))
  }

  /**
   * The conversion succeeds when the header and then the green channel do,
   * and the image is row-major: height rows of width samples, element
   * (r, c) being green sample r * width + c.
   */
  lemma ConvertTokensRowMajor(ts: seq<string>, h: PpmHeader, greens: seq<int>, r: nat, c: nat)
    requires ParseHeader(ts) == Success(h)
    requires GreenChannel(ts, HeaderTokens, h.width, h.height, h.maxval) == Success(greens)
    ensures ConvertTokens(ts).Success?
    ensures |ConvertTokens(ts).value| == h.height
    ensures r < h.height && c < h.width ==>
              && c < |ConvertTokens(ts).value[r]| && r * h.width + c < |greens|
              && ConvertTokens(ts).value[r][c] == greens[r * h.width + c]
  {
    assert ConvertTokens(ts) == Success(Reshape(greens, h.height, h.width).value);
    if r < h.height && c < h.width {
      ReshapeAt(greens, h.height, h.width, r, c);
    }
  }

  /** A conversion fails exactly with the header's error, or else with the green channel's. */
  lemma ConvertTokensFails(ts: seq<string>)
    ensures ParseHeader(ts).Failure? ==> ConvertTokens(ts) == Failure(ParseHeader(ts).error)
    ensures ParseHeader(ts).Success? ==>
              var h := ParseHeader(ts).value;
              var greens := GreenChannel(ts, HeaderTokens, h.width, h.height, h.maxval);
              (greens.Failure? <==> ConvertTokens(ts).Failure?) &&
              (greens.Failure? ==> ConvertTokens(ts).error == greens.error)
  {
  }
}
