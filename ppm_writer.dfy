/**
 * The plain-text PPM writer of the PNG converter: a `P3` header, then one
 * grey pixel `v v v` per line, each value clamped into [0, maxval]; and the
 * choice of maxval from the image's band mode.
 */
module PpmWriter {
  import opened Text

  /** `maxval` for a band mode: 16-bit for `I;16`, `I;16B`, `I;16L` and `I`, 8-bit otherwise. */
  function MaxvalFor(mode: string): (m: nat)
    ensures m == 65535 <==> mode in ["I;16", "I;16B", "I;16L", "I"]
    ensures m != 65535 ==> m == 255
  {
    if mode == "I;16" || mode == "I;16B" || mode == "I;16L" || mode == "I" then 65535 else 255
  }

  /** The two clamping statements, in their order: first up to 0, then down to maxval. */
  function Clamp(v: int, maxval: int): (c: int)
    ensures maxval >= 0 ==> 0 <= c <= maxval
    ensures 0 <= v <= maxval ==> c == v
    ensures maxval >= 0 && v < 0 ==> c == 0
    ensures v > maxval ==> c == maxval
  {
    var low := if v < 0 then 0 else v;
    if low > maxval then maxval else low
  }

  /** The three header lines: magic, dimensions, maxval. */
  function HeaderText(width: int, height: int, maxval: int): string
  {
    "P3\n" + IntToString(width) + " " + IntToString(height) + "\n" + IntToString(maxval) + "\n"
  }

  /** One grey pixel `v v v `, with the trailing space the writer leaves. */
  function Triple(v: int): string
  {
    IntToString(v) + " " + IntToString(v) + " " + IntToString(v) + " "
  }

  /** One grey pixel on a line of its own. */
  function PixelLine(v: int): string
  {
    Triple(v) + "\n"
  }

  /** The pixel lines for a sequence of values, in order. */
  function BodyText(values: seq<int>, maxval: int): string
  {
    if values == [] then ""
    else BodyText(values[..|values| - 1], maxval) + PixelLine(Clamp(values[|values| - 1], maxval))
  }

  /** The whole file the writer produces. */
  function PpmText(width: int, height: int, maxval: int, values: seq<int>): string
  {
    HeaderText(width, height, maxval) + BodyText(values, maxval)
  }

  lemma Associate(a: string, b: string, c: string)
    ensures a + b + c == a + (b + c)
  {
  }

  /**
   * `write_ppm_p3` with the file replaced by the text it receives. With one
   * pixel per line the line counter is back at 0 after every pixel, so the
   * closing newline branch never adds anything; nothing compares the number
   * of values with width * height.
   */
  method WritePpmP3(width: int, height: int, maxval: int, grayValues: seq<int>) returns (out: string)
    ensures out == PpmText(width, height, maxval, grayValues)
  {
    out := "P3\n";
    out := out + IntToString(width) + " " + IntToString(height) + "\n";
    out := out + IntToString(maxval) + "\n";
    var perLine := 1;
    var tripletsOnLine := 0;
    var countInLine := 0;
    for i := 0 to |grayValues|
      invariant out == HeaderText(width, height, maxval) + BodyText(grayValues[..i], maxval)
      invariant tripletsOnLine == 0
    {
      var v := grayValues[i];
      if v < 0 {
        v := 0;
      }
      if v > maxval {
        v := maxval;
      }
      ghost var before := out;
      var triplet := Triple(v);
      out := out + triplet;
      countInLine := countInLine + 3;
      tripletsOnLine := tripletsOnLine + 1;
      if tripletsOnLine >= perLine {
        out := out + "\n";
        tripletsOnLine := 0;
        countInLine := 0;
      }
      assert v == Clamp(grayValues[i], maxval);
      Associate(before, triplet, "\n");
      assert grayValues[..i + 1][..i] == grayValues[..i];
      Associate(HeaderText(width, height, maxval), BodyText(grayValues[..i], maxval), PixelLine(v));
    }
    if tripletsOnLine != 0 {
      out := out + "\n";
    }
    assert grayValues[..|grayValues|] == grayValues;
  }
}
