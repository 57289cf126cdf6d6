/**
 * The table part of the convolution generator: the flattened kernel, the
 * power-of-two widths of the adder tree, the multiplier list literal
 * `OPTIMAL_MULT_STR`, and the pruning table `OPTIMAL_ADD`, whose entry at
 * level l, position opt is 0 when that adder-tree node has nothing to add.
 */
module TableGenerator {
  import opened Wrappers
  import opened Bytes
  import opened Text
  import opened Grid
  import opened MultiplierEncoding

  /** The Python exceptions `generate_optimal_convolution_floating_point` can raise on its kernel. */
  datatype GenError =
    | EmptyKernel     // `KERNEL[0]` of an empty list
    | LogOfZero       // `log2(0)` when the linear width is zero
    | KernelTooShort  // `KERNEL[opt]` past the end of the flattened kernel
    | NoAdderLevels   // `OPTIMAL_ADD[0]` of an empty table (linear width 1, zero coefficient)

  /** The two generated tables. */
  datatype Tables = Tables(multStr: string, optimalAdd: seq<seq<int>>)

  /** Row-major flattening, `[item for sublist in KERNEL for item in sublist]`. */
  function Flatten(kernel: seq<seq<int>>): seq<int>
  {
    if kernel == [] then [] else kernel[0] + Flatten(kernel[1..])
  }

  /** For a kernel of equal-length rows, entry (r, c) sits at r*width + c of the flattening. */
  lemma {:induction false} FlattenRowMajor(kernel: seq<seq<int>>, width: nat, r: nat, c: nat)
    requires forall k :: 0 <= k < |kernel| ==> |kernel[k]| == width
    requires r < |kernel| && c < width
    ensures |Flatten(kernel)| == |kernel| * width
    ensures r * width + c < |Flatten(kernel)| && Flatten(kernel)[r * width + c] == kernel[r][c]
    decreases |kernel|
  {
    FlattenLength(kernel, width);
    if r > 0 {
      FlattenRowMajor(kernel[1..], width, r - 1, c);
      MulSucc(r - 1, width);
    }
  }

  lemma {:induction false} FlattenLength(kernel: seq<seq<int>>, width: nat)
    requires forall k :: 0 <= k < |kernel| ==> |kernel[k]| == width
    ensures |Flatten(kernel)| == |kernel| * width
    decreases |kernel|
  {
    if kernel != [] {
      FlattenLength(kernel[1..], width);
      MulSucc(|kernel| - 1, width);
    }
  }

  /** `ceil(log2(n))` on integers, with 0 for n <= 1. */
  function Clog2(n: nat): nat
  {
    if n <= 1 then 0 else 1 + Clog2((n + 1) / 2)
  }

  /** 2^Clog2(n) is a power of two at least n, and the one below it is less than n. */
  lemma {:induction false} Clog2Bounds(n: nat)
    requires n >= 1
    ensures n <= Pow2(Clog2(n))
    ensures Clog2(n) > 0 ==> Pow2(Clog2(n) - 1) < n
  {
    if n > 1 {
      var m := (n + 1) / 2;
      Clog2Bounds(m);
    }
  }

  /** 2^Clog2(n) is the least power of two that is at least n. */
  lemma Clog2Least(n: nat, k: nat)
    requires n >= 1 && n <= Pow2(k)
    ensures Clog2(n) <= k
  {
    Clog2Bounds(n);
    if Clog2(n) > 0 {
      Pow2Monotone(if k < Clog2(n) then k else Clog2(n) - 1, Clog2(n) - 1);
    }
  }

  lemma {:induction false} Clog2Pow2(k: nat)
    ensures Clog2(Pow2(k)) == k
  {
    if k > 0 {
      assert (Pow2(k) + 1) / 2 == Pow2(k - 1);
      Clog2Pow2(k - 1);
    }
  }

  /** The number of used positions in level l of the table: the linear width at level 0, 2^(levels-l) above. */
  function RowBound(lw: nat, levels: nat, l: nat): nat
    requires l <= levels
  {
    if l == 0 then lw else Pow2(levels - l)
  }

  /**
   * The intended table entry: 0 outside the row's bound; at level 0, 0 for
   * a zero coefficient; above, 0 when both children at the level below are 0.
   */
  function AddSpec(flat: seq<int>, lw: nat, levels: nat, l: nat, opt: nat): (v: int)
    requires lw <= |flat| && l < levels
    ensures v == 0 || v == 1
  {
    if opt >= RowBound(lw, levels, l) then 0
    else if l == 0 then (if flat[opt] == 0 then 0 else 1)
    else if AddSpec(flat, lw, levels, l - 1, 2 * opt) == 0 && AddSpec(flat, lw, levels, l - 1, 2 * opt + 1) == 0 then 0
    else 1
  }

  /** Some nonzero coefficient among the first lw lies in [lo, hi). */
  predicate HasNonZero(flat: seq<int>, lw: nat, lo: int, hi: int)
    requires lw <= |flat|
  {
    exists i :: lo <= i < hi && 0 <= i < lw && flat[i] != 0
  }

  lemma HasNonZeroSplit(flat: seq<int>, lw: nat, lo: int, mid: int, hi: int)
    requires lw <= |flat| && lo <= mid <= hi
    ensures HasNonZero(flat, lw, lo, hi) <==> HasNonZero(flat, lw, lo, mid) || HasNonZero(flat, lw, mid, hi)
  {
    if HasNonZero(flat, lw, lo, hi) {
      var i :| lo <= i < hi && 0 <= i < lw && flat[i] != 0;
      if i < mid {
        assert HasNonZero(flat, lw, lo, mid);
      } else {
        assert HasNonZero(flat, lw, mid, hi);
      }
    }
  }

  lemma ChildRanges(opt: nat, p: nat)
    ensures opt * (2 * p) == (2 * opt) * p
    ensures (2 * opt + 1) * p == (2 * opt) * p + p
    ensures (opt + 1) * (2 * p) == (2 * opt + 1) * p + p
  {
  }

  /**
   * A node of the adder tree is 1 exactly when some nonzero coefficient
   * lies among the leaves it covers, [opt * 2^l, (opt + 1) * 2^l).
   */
  lemma {:induction false} AddSpecMeaning(flat: seq<int>, lw: nat, levels: nat, l: nat, opt: nat)
    requires lw <= |flat| && l < levels && lw <= Pow2(levels)
    ensures AddSpec(flat, lw, levels, l, opt) == 1 <==>
              HasNonZero(flat, lw, opt * Pow2(l), (opt + 1) * Pow2(l))
    decreases l
  {
    if opt >= RowBound(lw, levels, l) {
      if l > 0 {
        MulMonotone(Pow2(levels - l), opt, Pow2(l));
        Pow2Add(levels - l, l);
        assert levels - l + l == levels;
      }
      assert !HasNonZero(flat, lw, opt * Pow2(l), (opt + 1) * Pow2(l));
    } else if l == 0 {
      assert Pow2(0) == 1;
      if flat[opt] != 0 {
        assert HasNonZero(flat, lw, opt, opt + 1);
      }
    } else {
      var p := Pow2(l - 1);
      ChildRanges(opt, p);
      AddSpecMeaning(flat, lw, levels, l - 1, 2 * opt);
      AddSpecMeaning(flat, lw, levels, l - 1, 2 * opt + 1);
      assert 2 * opt + 1 + 1 == 2 * (opt + 1);
      HasNonZeroSplit(flat, lw, (2 * opt) * p, (2 * opt + 1) * p, (2 * opt + 2) * p);
    }
  }

  /** The finished pruning table: `levels` rows of `lw2` entries. */
  function AddTable(flat: seq<int>, lw: nat, lw2: nat, levels: nat): seq<seq<int>>
    requires lw <= |flat|
  {
    seq(levels, l requires 0 <= l < levels =>
      seq(lw2, opt requires 0 <= opt < lw2 => AddSpec(flat, lw, levels, l, opt)))
  }

  /** The i-th piece of the multiplier list: a line break before each kernel row, then the literal. */
  function MultEntry(flat: seq<int>, width: nat, opt: nat, expWidth: nat, expMax: int): string
    requires width >= 1 && opt < |flat|
  {
    (if StartsRow(opt, width) then "\n" else "") + OptMultStr(flat[opt], expWidth, expMax)
  }

  /** Whether flattened index opt begins a kernel row (`opt % WINDOW_WIDTH == 0`). */
  predicate StartsRow(opt: nat, width: nat)
    requires width >= 1
  {
    opt % width == 0
  }

  function MultEntries(flat: seq<int>, width: nat, n: nat, expWidth: nat, expMax: int): seq<string>
    requires width >= 1 && n <= |flat|
  {
    seq(n, opt requires 0 <= opt < n => MultEntry(flat, width, opt, expWidth, expMax))
  }

  /** The multiplier list as it is meant to read: `'{e0,e1,...};`. */
  function MultStr(flat: seq<int>, width: nat, lw: nat, expWidth: nat, expMax: int): string
    requires width >= 1 && lw <= |flat|
  {
    "'{" + Join(MultEntries(flat, width, lw, expWidth, expMax), ',') + "};"
  }

  lemma MultEntriesSnoc(flat: seq<int>, width: nat, n: nat, expWidth: nat, expMax: int)
    requires width >= 1 && n < |flat|
    ensures MultEntries(flat, width, n + 1, expWidth, expMax) ==
              MultEntries(flat, width, n, expWidth, expMax) + [MultEntry(flat, width, n, expWidth, expMax)]
  {
  }

  /** Each part followed by the separator, the way `+= ... + ","` builds the list. */
  function Terminated(parts: seq<string>, sep: char): string
  {
    if parts == [] then [] else Terminated(parts[..|parts| - 1], sep) + parts[|parts| - 1] + [sep]
  }

  /** One more part after a prefix: what one iteration of the `+=` loop does. */
  lemma TerminatedSnoc(prefix: string, parts: seq<string>, p: string, sep: char)
    ensures prefix + Terminated(parts + [p], sep) == prefix + Terminated(parts, sep) + p + [sep]
  {
    assert (parts + [p])[..|parts|] == parts;
  }

  /** `OPTIMAL_MULT_STR[:-1] + "};"` on the accumulated list. */
  lemma CloseList(s: string, parts: seq<string>)
    requires |parts| >= 1 && s == "'{" + Terminated(parts, ',')
    ensures |s| >= 1 && s[..|s| - 1] + "};" == "'{" + Join(parts, ',') + "};"
  {
    TerminatedJoin(parts, ',');
    assert s[..|s| - 1] == "'{" + Join(parts, ',');
  }

  /** Dropping the last separator leaves the join. */
  lemma {:induction false} TerminatedJoin(parts: seq<string>, sep: char)
    requires |parts| >= 1
    ensures Terminated(parts, sep) == Join(parts, sep) + [sep]
    decreases |parts|
  {
    if |parts| > 1 {
      var front := parts[..|parts| - 1];
      TerminatedJoin(front, sep);
      JoinAppend(front, [parts[|parts| - 1]], sep);
      assert front + [parts[|parts| - 1]] == parts;
    }
  }

  /**
   * The multiplier list is `'{`, then the entries in flattened order
   * separated by commas, then `};`; splitting the inside at the commas gives
   * back each entry: a line break exactly at the start of each kernel row,
   * then that coefficient's literal.
   */
  lemma MultStrEntries(flat: seq<int>, width: nat, lw: nat, expWidth: nat, expMax: int)
    requires width >= 1 && 1 <= lw <= |flat|
    ensures var s := MultStr(flat, width, lw, expWidth, expMax);
            var inner := Split(s[2..|s| - 2], ',');
            && |s| >= 4 && s[..2] == "'{" && s[|s| - 2..] == "};"
            && |inner| == lw
            && forall opt :: 0 <= opt < lw ==>
                 inner[opt] == (if opt % width == 0 then "\n" else "") + OptMultStr(flat[opt], expWidth, expMax)
  {
    var es := MultEntries(flat, width, lw, expWidth, expMax);
    var j := Join(es, ',');
    var s := MultStr(flat, width, lw, expWidth, expMax);
    assert s == "'{" + j + "};";
    assert s[2..|s| - 2] == j;
    forall k | 0 <= k < |es|
      ensures ',' !in es[k]
    {
      OptMultStrNoComma(flat[k], expWidth, expMax);
      var pre: string := if k % width == 0 then "\n" else "";
      var lit := OptMultStr(flat[k], expWidth, expMax);
      assert es[k] == pre + lit;
    }
    SplitJoin(es, ',');
  }

  /** Every table has `levels` rows of `lw2` entries. */
  predicate IsTable(t: seq<seq<int>>, levels: nat, lw2: nat)
  {
    |t| == levels && forall l :: 0 <= l < levels ==> |t[l]| == lw2
  }

  /** `t[l][o] = 0` on a list of lists. */
  function ZeroAt(t: seq<seq<int>>, l: nat, o: nat): seq<seq<int>>
    requires l < |t| && o < |t[l]|
  {
    t[l := t[l][o := 0]]
  }

  /** The table after the two clearing loops: 0 from each row's bound on, 1 before it. */
  function Cleared(lw: nat, levels: nat, lw2: nat): seq<seq<int>>
  {
    seq(levels, k requires 0 <= k < levels =>
      seq(lw2, o requires 0 <= o < lw2 => if o >= RowBound(lw, levels, k) then 0 else 1))
  }

  /** The table once the multiplier loop has looked at the first n coefficients. */
  function Level0Pass(flat: seq<int>, lw: nat, levels: nat, lw2: nat, n: nat): seq<seq<int>>
    requires n <= |flat|
  {
    seq(levels, k requires 0 <= k < levels =>
      seq(lw2, o requires 0 <= o < lw2 =>
        if k == 0 then (if o >= lw || (o < n && flat[o] == 0) then 0 else 1)
        else if o >= RowBound(lw, levels, k) then 0 else 1))
  }

  /** The table once the combining loop has finished rows below l and the first opt entries of row l. */
  function Combined(flat: seq<int>, lw: nat, levels: nat, lw2: nat, l: nat, opt: nat): seq<seq<int>>
    requires lw <= |flat|
  {
    seq(levels, k requires 0 <= k < levels =>
      seq(lw2, o requires 0 <= o < lw2 => CombinedEntry(flat, lw, levels, l, opt, k, o)))
  }

  /** Entry (k, o) of that table: intended if already combined, else as the clearing loops left it. */
  function CombinedEntry(flat: seq<int>, lw: nat, levels: nat, l: nat, opt: nat, k: nat, o: nat): int
    requires lw <= |flat| && k < levels
  {
    if k < l || (k == l && o < opt) then AddSpec(flat, lw, levels, k, o)
    else if o >= RowBound(lw, levels, k) then 0 else 1
  }

  /**
   * The two clearing loops: row 0 from the linear width on, and row l >= 1
   * from 2^(levels-l) on, become 0; every other entry stays 1.
   */
  method ClearUnused(add: seq<seq<int>>, lw: nat, lw2: nat, levels: nat) returns (t: seq<seq<int>>)
    requires 1 <= lw <= lw2 && lw2 == Pow2(levels)
    requires IsTable(add, levels, lw2)
    requires forall l, o :: 0 <= l < levels && 0 <= o < lw2 ==> add[l][o] == 1
    ensures t == Cleared(lw, levels, lw2)
  {
    t := add;
    for opt := lw to lw2
      invariant IsTable(t, levels, lw2)
      invariant forall l, o :: 0 <= l < levels && 0 <= o < lw2 ==>
                  t[l][o] == if l == 0 && lw <= o < opt then 0 else 1
    {
      t := ZeroAt(t, 0, opt);
    }
    var l := 1;
    while l < levels
      invariant 1 <= l && (levels >= 1 ==> l <= levels)
      invariant IsTable(t, levels, lw2)
      invariant forall k, o :: 0 <= k < levels && 0 <= o < lw2 ==>
                  t[k][o] == if k < l && o >= RowBound(lw, levels, k) then 0 else 1
    {
      var bound := Pow2(levels - l);
      Pow2Monotone(levels - l, levels);
      for opt := bound to lw2
        invariant IsTable(t, levels, lw2)
        invariant forall k, o :: 0 <= k < levels && 0 <= o < lw2 ==>
                    t[k][o] == if (k < l && o >= RowBound(lw, levels, k)) || (k == l && bound <= o < opt) then 0 else 1
      {
        t := ZeroAt(t, l, opt);
      }
      l := l + 1;
    }
    TableExt(t, Cleared(lw, levels, lw2), levels, lw2);
  }

  /** Two tables of the same shape that agree everywhere are equal. */
  lemma TableExt(a: seq<seq<int>>, b: seq<seq<int>>, levels: nat, lw2: nat)
    requires IsTable(a, levels, lw2) && IsTable(b, levels, lw2)
    requires forall k, o :: 0 <= k < levels && 0 <= o < lw2 ==> a[k][o] == b[k][o]
    ensures a == b
  {
    forall k | 0 <= k < levels
      ensures a[k] == b[k]
    {
    }
  }

  lemma Level0PassStart(flat: seq<int>, lw: nat, levels: nat, lw2: nat)
    ensures Level0Pass(flat, lw, levels, lw2, 0) == Cleared(lw, levels, lw2)
  {
    var a, b := Level0Pass(flat, lw, levels, lw2, 0), Cleared(lw, levels, lw2);
    forall k, o | 0 <= k < levels && 0 <= o < lw2
      ensures a[k][o] == b[k][o]
    {
      assert a[k][o] == if o >= RowBound(lw, levels, k) then 0 else 1;
    }
    TableExt(a, b, levels, lw2);
  }

  /** One iteration of the multiplier loop on the table. */
  lemma Level0PassStep(flat: seq<int>, lw: nat, levels: nat, lw2: nat, n: nat)
    requires n < |flat| && n < lw <= lw2 && levels >= 1
    ensures var t := Level0Pass(flat, lw, levels, lw2, n);
            Level0Pass(flat, lw, levels, lw2, n + 1) == if flat[n] == 0 then ZeroAt(t, 0, n) else t
  {
    var t := Level0Pass(flat, lw, levels, lw2, n);
    var u := if flat[n] == 0 then ZeroAt(t, 0, n) else t;
    TableExt(Level0Pass(flat, lw, levels, lw2, n + 1), u, levels, lw2);
  }

  /**
   * The multiplier loop: appends each entry and a comma, zeroes row 0 at
   * every zero coefficient, then drops the last comma and closes the list.
   * It fails with KernelTooShort at the first index past the flattened
   * kernel, and with NoAdderLevels at a zero coefficient when the table has
   * no rows.
   */
  method MultiplierPass(flat: seq<int>, width: nat, lw: nat, levels: nat, lw2: nat,
                        expWidth: nat, expMax: int, add: seq<seq<int>>)
    returns (r: Result<(string, seq<seq<int>>), GenError>)
    requires width >= 1 && 1 <= lw <= lw2 && lw2 == Pow2(levels)
    requires add == Cleared(lw, levels, lw2)
    ensures r.Failure? <==> |flat| < lw || (levels == 0 && flat[0] == 0)
    ensures r.Failure? ==> r.error == if |flat| < lw then KernelTooShort else NoAdderLevels
    ensures r.Success? ==>
              && r.value.0 == MultStr(flat, width, lw, expWidth, expMax)
              && r.value.1 == Level0Pass(flat, lw, levels, lw2, lw)
  {
    var s := "'{";
    var t := add;
    ghost var entries: seq<string> := [];
    Level0PassStart(flat, lw, levels, lw2);
    for opt := 0 to lw
      invariant opt <= |flat|
      invariant s == "'{" + Terminated(entries, ',')
      invariant entries == MultEntries(flat, width, opt, expWidth, expMax)
      invariant t == Level0Pass(flat, lw, levels, lw2, opt)
      invariant levels == 0 ==> forall o :: 0 <= o < opt ==> flat[o] != 0
    {
      if opt >= |flat| {
        return Failure(KernelTooShort);
      }
      var entry := MultEntry(flat, width, opt, expWidth, expMax);
      TerminatedSnoc("'{", entries, entry, ',');
      s := s + entry + ",";
      MultEntriesSnoc(flat, width, opt, expWidth, expMax);
      entries := entries + [entry];
      if levels >= 1 {
        Level0PassStep(flat, lw, levels, lw2, opt);
      }
      if flat[opt] == 0 {
        if levels == 0 {
          return Failure(NoAdderLevels);
        }
        t := ZeroAt(t, 0, opt);
      }
    }
    CloseList(s, entries);
    s := s[..|s| - 1] + "};";
    return Success((s, t));
  }

  /** Before the combining loop: row 0 is already final, the rest are as cleared. */
  lemma CombinedStart(flat: seq<int>, lw: nat, levels: nat, lw2: nat)
    requires lw <= |flat|
    ensures Level0Pass(flat, lw, levels, lw2, lw) == Combined(flat, lw, levels, lw2, 1, 0)
  {
    TableExt(Level0Pass(flat, lw, levels, lw2, lw), Combined(flat, lw, levels, lw2, 1, 0), levels, lw2);
  }

  /** Position opt of row l cleared when both its children in row l - 1 are 0. */
  function Merge(t: seq<seq<int>>, l: nat, opt: nat): seq<seq<int>>
    requires 1 <= l < |t| && 2 * opt + 1 < |t[l - 1]| && opt < |t[l]|
  {
    if t[l - 1][2 * opt] == 0 && t[l - 1][2 * opt + 1] == 0 then ZeroAt(t, l, opt) else t
  }

  /** One iteration of the inner combining loop on the table. */
  lemma CombinedStep(flat: seq<int>, lw: nat, levels: nat, lw2: nat, l: nat, opt: nat)
    requires lw <= |flat| && 1 <= l < levels && lw2 == Pow2(levels) && opt < Pow2(levels - l)
    ensures 2 * opt + 1 < lw2
    ensures Combined(flat, lw, levels, lw2, l, opt + 1) == Merge(Combined(flat, lw, levels, lw2, l, opt), l, opt)
  {
    Pow2Monotone(levels - l + 1, levels);
    var t := Combined(flat, lw, levels, lw2, l, opt);
    var c := Combined(flat, lw, levels, lw2, l, opt + 1);
    var zero := AddSpec(flat, lw, levels, l, opt) == 0;
    assert zero <==> t[l - 1][2 * opt] == 0 && t[l - 1][2 * opt + 1] == 0;
    var u := Merge(t, l, opt);
    forall k, o | 0 <= k < levels && 0 <= o < lw2
      ensures c[k][o] == u[k][o]
    {
      EntryStep(flat, lw, levels, l, opt, k, o);
    }
    TableExt(c, u, levels, lw2);
  }

  lemma EntryStep(flat: seq<int>, lw: nat, levels: nat, l: nat, opt: nat, k: nat, o: nat)
    requires lw <= |flat| && 1 <= l < levels && k < levels && opt < RowBound(lw, levels, l)
    ensures CombinedEntry(flat, lw, levels, l, opt + 1, k, o)
         == if k == l && o == opt then AddSpec(flat, lw, levels, l, opt) else CombinedEntry(flat, lw, levels, l, opt, k, o)
    ensures CombinedEntry(flat, lw, levels, l, opt, l, opt) == 1
  {
  }

  /** Row l is finished once its first 2^(levels-l) entries are. */
  lemma CombinedRowDone(flat: seq<int>, lw: nat, levels: nat, lw2: nat, l: nat)
    requires lw <= |flat| && 1 <= l < levels
    ensures Combined(flat, lw, levels, lw2, l, Pow2(levels - l)) == Combined(flat, lw, levels, lw2, l + 1, 0)
  {
    TableExt(Combined(flat, lw, levels, lw2, l, Pow2(levels - l)), Combined(flat, lw, levels, lw2, l + 1, 0), levels, lw2);
  }

  lemma CombinedDone(flat: seq<int>, lw: nat, levels: nat, lw2: nat, l: nat)
    requires lw <= |flat| && l >= levels
    ensures Combined(flat, lw, levels, lw2, l, 0) == AddTable(flat, lw, lw2, levels)
  {
    TableExt(Combined(flat, lw, levels, lw2, l, 0), AddTable(flat, lw, lw2, levels), levels, lw2);
  }

  /**
   * The level-combining loop: for l from 1, position opt < 2^(levels-l)
   * becomes 0 when both children 2opt and 2opt+1 at level l-1 are 0. Rows
   * are finished bottom-up, so at the end every entry is the intended one.
   */
  method CombineLevels(flat: seq<int>, lw: nat, levels: nat, lw2: nat, add: seq<seq<int>>) returns (t: seq<seq<int>>)
    requires lw <= |flat| && lw2 == Pow2(levels)
    requires add == Level0Pass(flat, lw, levels, lw2, lw)
    ensures t == AddTable(flat, lw, lw2, levels)
  {
    t := add;
    CombinedStart(flat, lw, levels, lw2);
    var l := 1;
    while l < levels
      invariant 1 <= l && (levels >= 1 ==> l <= levels)
      invariant t == Combined(flat, lw, levels, lw2, l, 0)
    {
      var lUp := l - 1;
      for opt := 0 to Pow2(levels - l)
        invariant t == Combined(flat, lw, levels, lw2, l, opt)
      {
        CombinedStep(flat, lw, levels, lw2, l, opt);
        if t[lUp][2 * opt] == 0 && t[lUp][2 * opt + 1] == 0 {
          t := ZeroAt(t, l, opt);
        }
      }
      CombinedRowDone(flat, lw, levels, lw2, l);
      l := l + 1;
    }
    CombinedDone(flat, lw, levels, lw2, l);
  }

  /** What `generate_optimal_convolution_floating_point` computes from its kernel, up to the tables. */
  function GenerateSpec(kernel: seq<seq<int>>, expWidth: nat): Result<Tables, GenError>
  {
    if |kernel| == 0 then Failure(EmptyKernel)
    else
      var width := |kernel[0]|;
      var lw := width * |kernel|;
      var flat := Flatten(kernel);
      if lw == 0 then Failure(LogOfZero)
      else if |flat| < lw then Failure(KernelTooShort)
      else
        var lw2 := Pow2(Clog2(lw));
        var levels := Clog2(lw2);
        if levels == 0 && flat[0] == 0 then Failure(NoAdderLevels)
        else Success(Tables(MultStr(flat, width, lw, expWidth, Pow2(expWidth) - 1), AddTable(flat, lw, lw2, levels)))
  }

  /**
   * The generator: widths and levels from the kernel shape, a table of 1s,
   * then the clearing, multiplier and combining loops.
   */
  method Generate(kernel: seq<seq<int>>, expWidth: nat) returns (r: Result<Tables, GenError>)
    ensures r == GenerateSpec(kernel, expWidth)
  {
    if |kernel| == 0 {
      return Failure(EmptyKernel);
    }
    var windowHeight := |kernel|;
    var windowWidth := |kernel[0]|;
    var flat := Flatten(kernel);
    var lw := windowWidth * windowHeight;
    if lw == 0 {
      return Failure(LogOfZero);
    }
    var lw2 := Pow2(Clog2(lw));
    var expMax := Pow2(expWidth) - 1;
    var levels := Clog2(lw2);
    Clog2Pow2(Clog2(lw));
    Clog2Bounds(lw);
    var add := seq(levels, _ => seq(lw2, _ => 1));
    add := ClearUnused(add, lw, lw2, levels);
    var pass := MultiplierPass(flat, windowWidth, lw, levels, lw2, expWidth, expMax, add);
    if pass.Failure? {
      return Failure(pass.error);
    }
    add := CombineLevels(flat, lw, levels, lw2, pass.value.1);
    return Success(Tables(pass.value.0, add));
  }

  /**
   * The generator fails exactly on an empty kernel list, a zero linear
   * width, a flattened kernel shorter than the linear width, or a single
   * coefficient that is zero (a one-entry kernel has no adder levels).
   */
  lemma GenerateFails(kernel: seq<seq<int>>, expWidth: nat)
    ensures GenerateSpec(kernel, expWidth).Failure? <==>
              || |kernel| == 0
              || |kernel[0]| * |kernel| == 0
              || |Flatten(kernel)| < |kernel[0]| * |kernel|
              || (|kernel[0]| * |kernel| == 1 && Flatten(kernel)[0] == 0)
  {
    if |kernel| > 0 && |kernel[0]| * |kernel| > 0 {
      var lw := |kernel[0]| * |kernel|;
      Clog2Pow2(Clog2(lw));
      Clog2Bounds(lw);
    }
  }

  /** A rectangular kernel is never too short for its linear width. */
  lemma RectangularKernelFits(kernel: seq<seq<int>>)
    requires |kernel| >= 1
    requires forall k :: 0 <= k < |kernel| ==> |kernel[k]| == |kernel[0]|
    ensures |Flatten(kernel)| == |kernel[0]| * |kernel|
  {
    FlattenLength(kernel, |kernel[0]|);
  }

  /**
   * On success, the pruning table has Clog2(lw) rows, each as long as the
   * least power of two at least lw, and entry (l, opt) is 1 exactly when a
   * nonzero coefficient lies among the leaves [opt * 2^l, (opt + 1) * 2^l).
   */
  lemma GeneratedTableMeaning(kernel: seq<seq<int>>, expWidth: nat, l: nat, opt: nat)
    requires GenerateSpec(kernel, expWidth).Success?
    ensures var t := GenerateSpec(kernel, expWidth).value.optimalAdd;
            var lw := |kernel[0]| * |kernel|;
            && IsTable(t, Clog2(lw), Pow2(Clog2(lw)))
            && lw <= Pow2(Clog2(lw))
            && (l < |t| && opt < Pow2(Clog2(lw)) ==>
                  (t[l][opt] == 1 <==> HasNonZero(Flatten(kernel), lw, opt * Pow2(l), (opt + 1) * Pow2(l))))
  {
    var lw := |kernel[0]| * |kernel|;
    Clog2Pow2(Clog2(lw));
    Clog2Bounds(lw);
    if l < Clog2(lw) {
      AddSpecMeaning(Flatten(kernel), lw, Clog2(lw), l, opt);
    }
  }
}
