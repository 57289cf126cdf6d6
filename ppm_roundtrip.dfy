/**
 * The PNG converter's 16-bit output read back by the green-channel
 * extractor: a grey image written with maxval 65535 comes back as the same
 * samples, reshaped to its height and width.
 */
module PpmRoundTrip {
  import opened Wrappers
  import opened Text
  import opened Grid
  import opened PpmWriter
  import opened PpmReader

  /** The tokens the pixel lines of the writer hold: each value three times, in order. */
  function Triplets(values: seq<int>): (ts: seq<string>)
    ensures |ts| == 3 * |values|
    ensures forall i :: 0 <= i < |values| ==>
              ts[3 * i] == IntToString(values[i]) && ts[3 * i + 1] == IntToString(values[i]) && ts[3 * i + 2] == IntToString(values[i])
  {
    if values == [] then []
    else
      var s := IntToString(values[|values| - 1]);
      var init := Triplets(values[..|values| - 1]);
      TripletsStep(init, values, s);
      init + [s, s, s]
  }

  lemma TripletsStep(init: seq<string>, values: seq<int>, s: string)
    requires |values| >= 1 && s == IntToString(values[|values| - 1])
    requires |init| == 3 * (|values| - 1)
    requires forall i :: 0 <= i < |values| - 1 ==>
               var t := IntToString(values[..|values| - 1][i]);
               init[3 * i] == t && init[3 * i + 1] == t && init[3 * i + 2] == t
    ensures var ts := init + [s, s, s];
            && |ts| == 3 * |values|
            && forall i :: 0 <= i < |values| ==>
                 ts[3 * i] == IntToString(values[i]) && ts[3 * i + 1] == IntToString(values[i]) && ts[3 * i + 2] == IntToString(values[i])
  {
    var ts := init + [s, s, s];
    var n := |values| - 1;
    forall i | 0 <= i < |values|
      ensures ts[3 * i] == IntToString(values[i]) && ts[3 * i + 1] == IntToString(values[i]) && ts[3 * i + 2] == IntToString(values[i])
    {
      if i < n {
        assert values[..n][i] == values[i];
        assert 3 * i + 2 < |init|;
      } else {
        assert 3 * i == |init|;
      }
    }
  }

  predicate EndsLine(s: string)
  {
    s == [] || s[|s| - 1] == '\n'
  }

  /** Text made of whole lines splits into the lines of each part. */
  lemma {:induction false} FileLinesAppend(a: string, b: string)
    requires EndsLine(a)
    ensures FileLines(a + b) == FileLines(a) + FileLines(b)
    decreases |a|
  {
    if a == [] {
      assert a + b == b;
    } else {
      assert a[|a| - 1] == '\n';
      var i := IndexOf(a, '\n');
      var line, rest := a[..i + 1], a[i + 1..];
      assert a == line + rest;
      FileLinesCons(line, rest + b);
      FileLinesCons(line, rest);
      Associate(line, rest, b);
      FileLinesAppend(rest, b);
      assert FileLines(a + b) == [line] + (FileLines(rest) + FileLines(b));
      assert FileLines(a) == [line] + FileLines(rest);
      JoinLines([line], FileLines(rest), FileLines(b));
    }
  }

  lemma JoinLines(x: seq<string>, y: seq<string>, z: seq<string>)
    ensures x + (y + z) == x + y + z
  {
  }

  /** Decimal digits hold no whitespace, newline or '#'. */
  lemma DigitsHaveNoBreak(n: nat)
    ensures '\n' !in NatToString(n) && '#' !in NatToString(n)
    ensures IsWord(NatToString(n))
  {
    var s := NatToString(n);
    assert forall i :: 0 <= i < |s| ==> IsDigit(s[i]);
  }

  /** Text without a newline, then one, is a single line. */
  lemma OneLine(body: string)
    requires '\n' !in body
    ensures FileLines(body + "\n") == [body + "\n"]
  {
    var line := body + "\n";
    assert line[..|line| - 1] == body;
    FileLinesCons(line, "");
    assert line + "" == line;
  }

  /** A line's tokens are its words when it holds no '#' and is not blank. */
  lemma PlainLineTokens(line: string, w: string)
    requires '#' !in line && IsWord(w) && w <= line
    ensures LineTokens(line) == Words(line)
  {
    assert line[0] == w[0];
    assert Strip(line) != [] by {
      assert !IsSpace(line[0]);
    }
  }

  /** A leading space separates nothing. */
  lemma WordsSpace(rest: string)
    ensures Words(" " + rest) == Words(rest)
  {
    var s := " " + rest;
    assert s[1..] == rest;
  }

  /** A word followed by a space comes off the front of the words. */
  lemma WordsSpaced(w: string, rest: string)
    requires IsWord(w)
    ensures Words(w + " " + rest) == [w] + Words(rest)
  {
    Associate(w, " ", rest);
    WordsCons(w, " " + rest);
    WordsSpace(rest);
  }

  lemma WordsNewline(w: string)
    requires IsWord(w)
    ensures Words(w + "\n") == [w]
  {
    WordsCons(w, "\n");
    var nl := "\n";
    assert nl[1..] == [];
  }

  /** The tokens of one line holding a single word before its newline. */
  lemma OneWordLine(w: string)
    requires IsWord(w) && '\n' !in w && '#' !in w
    ensures FileLines(w + "\n") == [w + "\n"]
    ensures LineTokens(w + "\n") == [w]
  {
    OneLine(w);
    PlainLineTokens(w + "\n", w);
    WordsNewline(w);
  }

  /** The tokens of the dimensions line. */
  lemma TwoWordLine(a: string, b: string)
    requires IsWord(a) && '\n' !in a && '#' !in a
    requires IsWord(b) && '\n' !in b && '#' !in b
    ensures FileLines(a + " " + b + "\n") == [a + " " + b + "\n"]
    ensures LineTokens(a + " " + b + "\n") == [a, b]
  {
    OneLine(a + " " + b);
    PlainLineTokens(a + " " + b + "\n", a);
    Associate(a + " ", b, "\n");
    WordsSpaced(a, b + "\n");
    WordsNewline(b);
  }

  /** The tokens of a pixel line: the value three times. */
  lemma PixelLineTokens(v: nat)
    ensures FileLines(PixelLine(v)) == [PixelLine(v)]
    ensures LineTokens(PixelLine(v)) == [NatToString(v), NatToString(v), NatToString(v)]
  {
    var s := NatToString(v);
    DigitsHaveNoBreak(v);
    var sp := s + " ";
    assert Triple(v) == sp + s + " " + s + " ";
    Associate(sp, s, " ");
    Associate(sp + sp, s, " ");
    assert Triple(v) == sp + sp + sp;
    OneLine(Triple(v));
    PlainLineTokens(PixelLine(v), s);
    Associate(sp + sp, sp, "\n");
    Associate(sp, sp, sp + "\n");
    assert PixelLine(v) == sp + (sp + (sp + "\n"));
    WordsSpaced(s, sp + (sp + "\n"));
    WordsSpaced(s, sp + "\n");
    WordsSpaced(s, "\n");
    var nl := "\n";
    assert nl[1..] == [];
    assert Words(nl) == [];
    Thrice(s);
  }

  lemma Thrice(s: string)
    ensures [s] + ([s] + ([s] + [])) == [s, s, s]
  {
  }

  /** `str(n)` holds no newline, whatever the sign of n. */
  lemma IntToStringNoBreak(n: int)
    ensures '\n' !in IntToString(n)
  {
    if n < 0 {
      DigitsHaveNoBreak(-n);
      assert IntToString(n) == "-" + NatToString(-n);
    } else {
      DigitsHaveNoBreak(n);
    }
  }

  /** The header text is its three lines. */
  lemma HeaderLines(width: int, height: int, maxval: int)
    ensures EndsLine(HeaderText(width, height, maxval))
    ensures FileLines(HeaderText(width, height, maxval))
            == ["P3\n", IntToString(width) + " " + IntToString(height) + "\n", IntToString(maxval) + "\n"]
  {
    var w, h, m := IntToString(width), IntToString(height), IntToString(maxval);
    IntToStringNoBreak(width);
    IntToStringNoBreak(height);
    IntToStringNoBreak(maxval);
    var l1, l2, l3 := "P3\n", w + " " + h + "\n", m + "\n";
    HeaderLayout(w, h, m);
    assert HeaderText(width, height, maxval) == l1 + (l2 + l3);
    Magic();
    OneLine(w + " " + h);
    OneLine(m);
    WholeLines(l1, l2, l3);
  }

  lemma Magic()
    ensures FileLines("P3\n") == ["P3\n"]
  {
    OneLine("P3");
    assert "P3" + "\n" == "P3\n";
  }

  /** Three single lines one after the other are the text's three lines. */
  lemma WholeLines(l1: string, l2: string, l3: string)
    requires EndsLine(l1) && EndsLine(l2)
    requires FileLines(l1) == [l1] && FileLines(l2) == [l2] && FileLines(l3) == [l3]
    ensures FileLines(l1 + (l2 + l3)) == [l1, l2, l3]
  {
    FileLinesAppend(l1, l2 + l3);
    FileLinesAppend(l2, l3);
  }

  /**
   * The writer emits one line per value, in order, each the clamped value
   * three times; the number of lines follows the values alone.
   */
  lemma {:induction false} BodyLines(values: seq<int>, maxval: int)
    ensures EndsLine(BodyText(values, maxval))
    ensures |FileLines(BodyText(values, maxval))| == |values|
    ensures forall i :: 0 <= i < |values| ==> FileLines(BodyText(values, maxval))[i] == PixelLine(Clamp(values[i], maxval))
  {
    if values != [] {
      var init := values[..|values| - 1];
      var c := Clamp(values[|values| - 1], maxval);
      BodyLines(init, maxval);
      var body := BodyText(init, maxval);
      assert BodyText(values, maxval) == body + PixelLine(c);
      IntToStringNoBreak(c);
      OneLine(Triple(c));
      FileLinesAppend(body, PixelLine(c));
      LastOff(values);
      LinesSnoc(FileLines(body), init, values[|values| - 1], maxval);
    }
  }

  lemma LastOff(values: seq<int>)
    requires values != []
    ensures values == values[..|values| - 1] + [values[|values| - 1]]
  {
  }

  /** One more value, one more pixel line at the back. */
  lemma LinesSnoc(ls: seq<string>, init: seq<int>, v: int, maxval: int)
    requires |ls| == |init|
    requires forall i :: 0 <= i < |init| ==> ls[i] == PixelLine(Clamp(init[i], maxval))
    ensures forall i :: 0 <= i < |init| + 1 ==> (ls + [PixelLine(Clamp(v, maxval))])[i] == PixelLine(Clamp((init + [v])[i], maxval))
  {
  }

  /**
   * `write_ppm_p3` output as lines: `P3`, the dimensions, maxval, then one
   * line per value; for any dimensions and any number of values.
   */
  lemma WrittenLines(width: int, height: int, maxval: int, values: seq<int>)
    ensures var lines := FileLines(PpmText(width, height, maxval, values));
            && |lines| == 3 + |values|
            && lines[0] == "P3\n"
            && lines[1] == IntToString(width) + " " + IntToString(height) + "\n"
            && lines[2] == IntToString(maxval) + "\n"
            && forall i :: 0 <= i < |values| ==> lines[3 + i] == PixelLine(Clamp(values[i], maxval))
  {
    HeaderLines(width, height, maxval);
    BodyLines(values, maxval);
    FileLinesAppend(HeaderText(width, height, maxval), BodyText(values, maxval));
    AfterThree(FileLines(HeaderText(width, height, maxval)), FileLines(BodyText(values, maxval)));
  }

  /** Indexing past a three-line head lands in the body. */
  lemma AfterThree(head: seq<string>, body: seq<string>)
    requires |head| == 3
    ensures |head + body| == 3 + |body|
    ensures (head + body)[0] == head[0] && (head + body)[1] == head[1] && (head + body)[2] == head[2]
    ensures forall i :: 0 <= i < |body| ==> (head + body)[3 + i] == body[i]
  {
  }

  /** The pixel lines of 16-bit values hold exactly their triplets. */
  lemma {:induction false} BodyTokens(values: seq<int>)
    requires forall i :: 0 <= i < |values| ==> 0 <= values[i] <= 65535
    ensures EndsLine(BodyText(values, 65535))
    ensures TokenStream(FileLines(BodyText(values, 65535))) == Triplets(values)
  {
    if values != [] {
      var init := values[..|values| - 1];
      var v := values[|values| - 1];
      BodyTokens(init);
      assert Clamp(v, 65535) == v;
      var body := BodyText(init, 65535);
      assert BodyText(values, 65535) == body + PixelLine(v);
      FileLinesAppend(body, PixelLine(v));
      PixelLineTokens(v);
      TokenStreamAppend(FileLines(body), [PixelLine(v)]);
      SingleLine(PixelLine(v));
      assert Triplets(values) == Triplets(init) + [NatToString(v), NatToString(v), NatToString(v)];
    }
  }

  /** The header text is its three lines one after the other. */
  lemma HeaderLayout(w: string, h: string, m: string)
    ensures "P3\n" + w + " " + h + "\n" + m + "\n" == "P3\n" + ((w + " " + h + "\n") + (m + "\n"))
  {
    var magic := "P3\n";
    Associate(magic, w, " ");
    Associate(magic, w + " ", h);
    Associate(magic, w + " " + h, "\n");
    var x := magic + w + " " + h + "\n";
    Associate(x, m, "\n");
    Associate(magic, w + " " + h + "\n", m + "\n");
  }

  /** The tokens of three whole lines, in order. */
  lemma ThreeLines(l1: string, l2: string, l3: string)
    requires EndsLine(l1) && EndsLine(l2)
    ensures TokenStream(FileLines(l1 + (l2 + l3)))
            == TokenStream(FileLines(l1)) + (TokenStream(FileLines(l2)) + TokenStream(FileLines(l3)))
  {
    FileLinesAppend(l1, l2 + l3);
    FileLinesAppend(l2, l3);
    TokenStreamAppend(FileLines(l1), FileLines(l2 + l3));
    TokenStreamAppend(FileLines(l2), FileLines(l3));
  }

  lemma SingleLine(l: string)
    ensures TokenStream([l]) == LineTokens(l)
  {
    assert [l][1..] == [];
  }

  lemma Four(a: string, b: string, c: string, d: string)
    ensures [a] + ([b, c] + [d]) == [a, b, c, d]
  {
  }

  /** The header lines hold the magic, the two dimensions and maxval. */
  lemma HeaderTokensOf(width: nat, height: nat, maxval: nat)
    ensures EndsLine(HeaderText(width, height, maxval))
    ensures TokenStream(FileLines(HeaderText(width, height, maxval)))
            == ["P3", NatToString(width), NatToString(height), NatToString(maxval)]
  {
    var w, h, m := NatToString(width), NatToString(height), NatToString(maxval);
    DigitsHaveNoBreak(width);
    DigitsHaveNoBreak(height);
    DigitsHaveNoBreak(maxval);
    var l1, l2, l3 := "P3\n", w + " " + h + "\n", m + "\n";
    HeaderLayout(w, h, m);
    assert HeaderText(width, height, maxval) == l1 + (l2 + l3);
    var magic := "P3";
    assert l1 == magic + "\n";
    assert IsWord(magic) by {
      assert !IsSpace(magic[0]) && !IsSpace(magic[1]);
    }
    OneWordLine(magic);
    TwoWordLine(w, h);
    OneWordLine(m);
    SingleLine(l1);
    SingleLine(l2);
    SingleLine(l3);
    ThreeLines(l1, l2, l3);
    Four(magic, w, h, m);
  }

  /** The tokens of a whole 16-bit file: the four header tokens, then the triplets. */
  lemma FileTokens(width: nat, height: nat, values: seq<int>)
    requires forall i :: 0 <= i < |values| ==> 0 <= values[i] <= 65535
    ensures TokenStream(FileLines(PpmText(width, height, 65535, values)))
            == ["P3", NatToString(width), NatToString(height), NatToString(65535)] + Triplets(values)
  {
    HeaderTokensOf(width, height, 65535);
    BodyTokens(values);
    FileLinesAppend(HeaderText(width, height, 65535), BodyText(values, 65535));
    TokenStreamAppend(FileLines(HeaderText(width, height, 65535)), FileLines(BodyText(values, 65535)));
  }

  /** Triplets whose three tokens all parse to the sample read back as those samples. */
  lemma {:induction false} ReadGreensOfSamples(vs: seq<Option<int>>, p: nat, gs: seq<int>)
    requires p + 3 * |gs| <= |vs|
    requires forall i :: 0 <= i < |gs| ==>
               && 0 <= gs[i] <= 65535
               && vs[p + 3 * i] == Some(gs[i]) && vs[p + 3 * i + 1] == Some(gs[i]) && vs[p + 3 * i + 2] == Some(gs[i])
    ensures ReadGreens(vs, p, |gs|, 65535) == Success(gs)
    decreases |gs|
  {
    if gs != [] {
      assert vs[p] == Some(gs[0]) && vs[p + 1] == Some(gs[0]) && vs[p + 2] == Some(gs[0]);
      assert PixelGreen(vs, p, 65535) == Success(gs[0]);
      forall i | 0 <= i < |gs[1..]|
        ensures && 0 <= gs[1..][i] <= 65535
                && vs[p + 3 + 3 * i] == Some(gs[1..][i]) && vs[p + 3 + 3 * i + 1] == Some(gs[1..][i])
                && vs[p + 3 + 3 * i + 2] == Some(gs[1..][i])
      {
        assert gs[1..][i] == gs[i + 1];
        assert p + 3 + 3 * i == p + 3 * (i + 1);
      }
      ReadGreensOfSamples(vs, p + 3, gs[1..]);
      ReadGreensStep(vs, p, |gs|, 65535);
      assert [gs[0]] + gs[1..] == gs;
    }
  }

  /** The four header tokens of the writer are read back as its fields. */
  lemma HeaderOfFile(width: nat, height: nat, maxval: nat, rest: seq<string>)
    requires width >= 1 && height >= 1 && 1 <= maxval <= 65535
    ensures ParseHeader(["P3", NatToString(width), NatToString(height), NatToString(maxval)] + rest)
            == Success(PpmHeader(width, height, maxval))
  {
    var ts := ["P3", NatToString(width), NatToString(height), NatToString(maxval)] + rest;
    ParseNatToString(width);
    ParseNatToString(height);
    ParseNatToString(maxval);
    assert ts[1] == NatToString(width) && ts[2] == NatToString(height) && ts[3] == NatToString(maxval);
    ParseHeaderOutcome(ts);
  }

  /** A token holding the digits of v parses to v. */
  lemma TokenValue(ts: seq<string>, k: nat, v: nat)
    requires k < |ts| && ts[k] == NatToString(v)
    ensures IntTokens(ts)[k] == Some(v)
  {
    IntTokensAt(ts, k);
    ParseNatToString(v);
  }

  /** Each of the three tokens of pixel i parses to sample i. */
  lemma TripletValueAt(head: seq<string>, values: seq<int>, i: nat)
    requires |head| == HeaderTokens && i < |values| && values[i] >= 0
    ensures var vs := IntTokens(head + Triplets(values));
            && 4 + 3 * i + 2 < |vs|
            && vs[4 + 3 * i] == Some(values[i]) && vs[4 + 3 * i + 1] == Some(values[i])
            && vs[4 + 3 * i + 2] == Some(values[i])
  {
    TripletTokens(head, values, i);
    TokenValues3(head + Triplets(values), 4 + 3 * i, values[i]);
  }

  /** Pixel i's three tokens sit right after the header and the 3 * i tokens before them. */
  lemma TripletTokens(head: seq<string>, values: seq<int>, i: nat)
    requires |head| == HeaderTokens && i < |values| && values[i] >= 0
    ensures var ts := head + Triplets(values);
            var tok := NatToString(values[i]);
            && 4 + 3 * i + 2 < |ts|
            && ts[4 + 3 * i] == tok && ts[4 + 3 * i + 1] == tok && ts[4 + 3 * i + 2] == tok
  {
    var tail := Triplets(values);
    var tok := NatToString(values[i]);
    assert tail[3 * i] == tok && tail[3 * i + 1] == tok && tail[3 * i + 2] == tok;
  }

  lemma TokenValues3(ts: seq<string>, k: nat, v: nat)
    requires k + 2 < |ts| && ts[k] == NatToString(v) && ts[k + 1] == NatToString(v) && ts[k + 2] == NatToString(v)
    ensures IntTokens(ts)[k] == Some(v) && IntTokens(ts)[k + 1] == Some(v) && IntTokens(ts)[k + 2] == Some(v)
  {
    TokenValue(ts, k, v);
    TokenValue(ts, k + 1, v);
    TokenValue(ts, k + 2, v);
  }

  /**
   * A grey image of width * height 16-bit samples, written as a P3 file
   * with maxval 65535 and read by the green-channel extractor, comes back
   * as the same samples arranged in height rows of width.
   */
  lemma WriteThenRead(width: nat, height: nat, values: seq<int>)
    requires width >= 1 && height >= 1 && |values| == width * height
    requires forall i :: 0 <= i < |values| ==> 0 <= values[i] <= 65535
    ensures ConvertP3(FileLines(PpmText(width, height, 65535, values))) == Success(Reshape(values, height, width).value)
  {
    var maxval := 65535;
    var head := ["P3", NatToString(width), NatToString(height), NatToString(maxval)];
    var ts := head + Triplets(values);
    FileTokens(width, height, values);
    assert TokenStream(FileLines(PpmText(width, height, 65535, values))) == ts;
    HeaderOfFile(width, height, maxval, Triplets(values));
    var vs := IntTokens(ts);
    forall i | 0 <= i < |values|
      ensures && 0 <= values[i] <= 65535
              && vs[4 + 3 * i] == Some(values[i]) && vs[4 + 3 * i + 1] == Some(values[i])
              && vs[4 + 3 * i + 2] == Some(values[i])
    {
      TripletValueAt(head, values, i);
    }
    ReadGreensOfSamples(vs, 4, values);
    assert GreenChannel(ts, HeaderTokens, width, height, maxval) == Success(values);
    assert ConvertTokens(ts) == Success(Reshape(values, height, width).value);
  }
}
