/**
 * Array shapes as the receiver and the PPM reader use them (numpy's
 * semantics): clipping slices, strided slices, row-major reshapes and
 * rectangular crops.
 */
module Grid {
  import opened Wrappers

  /** A 2D integer image as a sequence of rows. */
  type Image = seq<seq<int>>

  function Min(a: int, b: int): int
  {
    if a <= b then a else b
  }

  /** Python's slice `s[a:b]` for non-negative bounds: clipped to s, empty when a >= b. */
  function Slice<T>(s: seq<T>, a: nat, b: nat): (r: seq<T>)
    ensures |r| == if a < Min(b, |s|) then Min(b, |s|) - a else 0
    ensures forall i :: 0 <= i < |r| ==> a + i < |s| && r[i] == s[a + i]
  {
    var hi := Min(b, |s|);
    if a < hi then s[a..hi] else []
  }

  lemma MulSucc(a: int, b: int)
    ensures (a + 1) * b == a * b + b
  {
  }

  lemma MulMonotone(a: int, b: int, c: nat)
    requires a <= b
    ensures a * c <= b * c
  {
  }

  lemma DivBetween(m: int, d: int, q: int)
    requires d >= 1 && q * d <= m < (q + 1) * d
    ensures m / d == q
  {
    var t, r := m / d, m % d;
    assert m == t * d + r && 0 <= r < d;
    MulMonotone(q + 1, if t > q then t else q + 1, d);
    MulMonotone(t + 1, if t < q then q else t + 1, d);
    MulSucc(t, d);
  }

  /** numpy's `s[start::step]`: every step-th element from index start on. */
  function Strided<T>(s: seq<T>, start: nat, step: nat): (r: seq<T>)
    requires step >= 1
    ensures start >= |s| ==> r == []
    ensures start < |s| ==> r != [] && r[0] == s[start]
    decreases |s| - start
  {
    if start >= |s| then [] else [s[start]] + Strided(s, start + step, step)
  }

  /** Element j of a strided slice is s[start + j*step], for exactly the j with that index in range. */
  lemma {:induction false} StridedAt<T>(s: seq<T>, start: nat, step: nat, j: nat)
    requires step >= 1
    ensures j < |Strided(s, start, step)| <==> start + j * step < |s|
    ensures j < |Strided(s, start, step)| ==> Strided(s, start, step)[j] == s[start + j * step]
    decreases |s| - start
  {
    if start < |s| && j > 0 {
      StridedAt(s, start + step, step, j - 1);
      MulSucc(j - 1, step);
    }
  }

  /** The length of a strided slice is the number of indices start, start+step, ... below |s|. */
  lemma StridedLength<T>(s: seq<T>, start: nat, step: nat)
    requires step >= 1
    ensures start >= |s| ==> |Strided(s, start, step)| == 0
    ensures start < |s| ==> |Strided(s, start, step)| == (|s| - start + step - 1) / step
  {
    var n := |Strided(s, start, step)|;
    if start < |s| {
      var k := n - 1;
      StridedAt(s, start, step, k);
      StridedAt(s, start, step, n);
      MulSucc(k, step);
      MulSucc(k + 1, step);
      DivBetween(|s| - start + step - 1, step, n);
    }
  }

  /**
   * numpy's `s.reshape(rows, cols)`: defined exactly when the element count
   * matches; then it has `rows` rows of `cols` elements each.
   */
  function Reshape(s: seq<int>, rows: nat, cols: nat): (r: Option<Image>)
    ensures r.Some? <==> |s| == rows * cols
    ensures r.Some? ==> |r.value| == rows && forall i :: 0 <= i < rows ==> |r.value[i]| == cols
    decreases rows
  {
    MulSucc(rows - 1, cols);
    if |s| != rows * cols then None
    else if rows == 0 then Some([])
    else
      var rest := Reshape(s[cols..], rows - 1, cols);
      Some([s[..cols]] + rest.value)
  }

  /** A reshape is its first row followed by the reshape of the rest. */
  lemma ReshapeCons(s: seq<int>, rows: nat, cols: nat)
    requires |s| == rows * cols && rows >= 1
    ensures cols <= |s| && |s[cols..]| == (rows - 1) * cols
    ensures Reshape(s, rows, cols).value == [s[..cols]] + Reshape(s[cols..], rows - 1, cols).value
  {
    MulSucc(rows - 1, cols);
  }

  /** Row i of the reshape starts i rows further in. */
  lemma RowOffset(cols: nat, i: nat, j: nat)
    requires i >= 1
    ensures (i - 1) * cols + j + cols == i * cols + j
  {
    MulSucc(i - 1, cols);
  }

  /** Element (i, j) of a reshape is s[i*cols + j]: the layout is row-major. */
  lemma {:induction false} ReshapeAt(s: seq<int>, rows: nat, cols: nat, i: nat, j: nat)
    requires |s| == rows * cols
    requires i < rows && j < cols
    ensures i * cols + j < |s|
    ensures Reshape(s, rows, cols).value[i][j] == s[i * cols + j]
    decreases rows
  {
    ReshapeCons(s, rows, cols);
    var rest := s[cols..];
    if i == 0 {
      assert i * cols + j == j;
    } else {
      ReshapeAt(rest, rows - 1, cols, i - 1, j);
      RowOffset(cols, i, j);
    }
  }

  /** `img[r0:r1, c0:c1]` with numpy's clipping. */
  function Crop(img: Image, r0: nat, r1: nat, c0: nat, c1: nat): (r: Image)
    ensures |r| == |Slice(img, r0, r1)|
    ensures forall i :: 0 <= i < |r| ==> r[i] == Slice(img[r0 + i], c0, c1)
  {
    var rows := Slice(img, r0, r1);
    seq(|rows|, i requires 0 <= i < |rows| => Slice(rows[i], c0, c1))
  }

  /** Crop element (i, j) is the source element (r0+i, c0+j). */
  lemma CropAt(img: Image, r0: nat, r1: nat, c0: nat, c1: nat, i: nat, j: nat)
    requires i < |Crop(img, r0, r1, c0, c1)|
    requires j < |Crop(img, r0, r1, c0, c1)[i]|
    ensures r0 + i < |img| && c0 + j < |img[r0 + i]|
    ensures Crop(img, r0, r1, c0, c1)[i][j] == img[r0 + i][c0 + j]
  {
  }
}
