/**
 * The multiplier encoding of the convolution-table generator: the
 * power-of-two test, two's-complement binary text of a fixed width, and the
 * per-coefficient literal `<2w>'b<msb><lsb>` whose fields say "multiply by
 * 0", "multiply by +2^lsb", "multiply by -2^lsb" or "no optimisation".
 */
module MultiplierEncoding {
  import opened Wrappers
  import opened Bytes
  import opened Text

  /** Python's `a & b` on non-negative integers, one bit at a time from the least significant. */
  function BitAnd(a: nat, b: nat): nat
  {
    if a == 0 || b == 0 then 0
    else 2 * BitAnd(a / 2, b / 2) + (if a % 2 == 1 && b % 2 == 1 then 1 else 0)
  }

  lemma {:induction false} BitAndSelf(m: nat)
    ensures BitAnd(m, m) == m
  {
    if m > 0 {
      BitAndSelf(m / 2);
    }
  }

  /** `is_power_of_two` on an integer: false for n <= 0, else `n & (n-1) == 0`. */
  predicate IsPowerOfTwo(n: int)
  {
    n > 0 && BitAnd(n, n - 1) == 0
  }

  /** The exponent of the largest power of two not above n (`int(log2(n))`). */
  function Log2(n: nat): (k: nat)
    requires n >= 1
    ensures Pow2(k) <= n < 2 * Pow2(k)
  {
    if n == 1 then 0 else 1 + Log2(n / 2)
  }

  lemma {:induction false} Log2OfPow2(k: nat)
    ensures Log2(Pow2(k)) == k
  {
    if k > 0 {
      assert Pow2(k) / 2 == Pow2(k - 1);
      Log2OfPow2(k - 1);
    }
  }

  /** The bit trick is exact: a positive n passes iff it is 2 to the power of its Log2. */
  lemma {:induction false} PowerOfTwoIff(n: int)
    ensures IsPowerOfTwo(n) <==> n >= 1 && Pow2(Log2(n)) == n
    decreases if n < 0 then 0 else n
  {
    if n > 1 {
      var m := n / 2;
      if n % 2 == 0 {
        assert BitAnd(n, n - 1) == 2 * BitAnd(m, m - 1) by {
          assert (n - 1) / 2 == m - 1 && (n - 1) % 2 == 1;
        }
        PowerOfTwoIff(m);
        assert Pow2(Log2(n)) == 2 * Pow2(Log2(m));
      } else {
        assert BitAnd(n, n - 1) == 2 * BitAnd(m, m) by {
          assert (n - 1) / 2 == m && (n - 1) % 2 == 0;
        }
        BitAndSelf(m);
        assert Pow2(Log2(n)) == 2 * Pow2(Log2(m));
      }
    }
  }

  /** The integer branch of `is_power_of_two` holds exactly of the powers of two. */
  lemma PowerOfTwoExactly(n: int)
    ensures IsPowerOfTwo(n) <==> exists k: nat :: n == Pow2(k)
  {
    PowerOfTwoIff(n);
    if exists k: nat :: n == Pow2(k) {
      var k: nat :| n == Pow2(k);
      Log2OfPow2(k);
    }
  }

  /** '0' or '1'. */
  function BitChar(b: nat): char
    requires b < 2
  {
    if b == 0 then '0' else '1'
  }

  predicate IsBinary(s: string)
  {
    forall i :: 0 <= i < |s| ==> s[i] == '0' || s[i] == '1'
  }

  /** The unsigned value of a string of binary digits, most significant first. */
  function BinValue(s: string): nat
  {
    if s == [] then 0 else 2 * BinValue(s[..|s| - 1]) + (if s[|s| - 1] == '1' then 1 else 0)
  }

  /** `format(n, 'b')`: binary digits without leading zeros ("0" for zero). */
  function Bin(n: nat): (s: string)
    ensures |s| >= 1 && IsBinary(s)
  {
    if n < 2 then [BitChar(n)] else Bin(n / 2) + [BitChar(n % 2)]
  }

  lemma {:induction false} BinValueOfBin(n: nat)
    ensures BinValue(Bin(n)) == n
  {
    if n >= 2 {
      BinValueOfBin(n / 2);
      assert Bin(n)[..|Bin(n)| - 1] == Bin(n / 2);
    }
  }

  /** A value below 2^w needs at most w binary digits (for w >= 1). */
  lemma {:induction false} BinLength(n: nat, w: nat)
    requires w >= 1 && n < Pow2(w)
    ensures |Bin(n)| <= w
  {
    if n >= 2 {
      BinLength(n / 2, w - 1);
    }
  }

  function Zeros(k: nat): (s: string)
    ensures |s| == k && IsBinary(s)
  {
    seq(k, _ => '0')
  }

  lemma {:induction false} BinValueZeros(k: nat)
    ensures BinValue(Zeros(k)) == 0
  {
    if k > 0 {
      assert Zeros(k)[..k - 1] == Zeros(k - 1);
      BinValueZeros(k - 1);
    }
  }

  /** Leading zeros do not change the value. */
  lemma {:induction false} BinValueLeadingZeros(k: nat, s: string)
    ensures BinValue(Zeros(k) + s) == BinValue(s)
    decreases |s|
  {
    if s == [] {
      assert Zeros(k) + s == Zeros(k);
      BinValueZeros(k);
    } else {
      assert (Zeros(k) + s)[..|Zeros(k) + s| - 1] == Zeros(k) + s[..|s| - 1];
      BinValueLeadingZeros(k, s[..|s| - 1]);
    }
  }

  /** Left padding with '0' up to width w. */
  function PadZeros(s: string, w: nat): (t: string)
    ensures |t| == if |s| < w then w else |s|
  {
    if |s| < w then Zeros(w - |s|) + s else s
  }

  /** `format(v, '0{w}b')`: zero padding to total width w, a minus sign counting toward it. */
  function FormatBin(v: int, w: nat): string
  {
    if v >= 0 then PadZeros(Bin(v), w)
    else "-" + PadZeros(Bin(-v), if w > 0 then w - 1 else 0)
  }

  /** `int_to_signed_bin(n, width)`: negative n is written as `2^width + n`. */
  function IntToSignedBin(n: int, width: nat): string
  {
    if n >= 0 then FormatBin(n, width) else FormatBin(Pow2(width) + n, width)
  }

  /** The remainder of n modulo p, for n in [-p, p). */
  lemma ModOfSmall(n: int, p: int)
    requires p >= 1 && -p <= n < p
    ensures n % p == if n >= 0 then n else p + n
  {
    if n < 0 {
      var v := p + n;
      assert 0 <= v < p;
      assert n == (-1) * p + v;
    }
  }

  /** Padding binary text with zeros keeps it binary and keeps its value. */
  lemma PadZerosValue(b: string, w: nat)
    requires IsBinary(b)
    ensures IsBinary(PadZeros(b, w)) && BinValue(PadZeros(b, w)) == BinValue(b)
  {
    if |b| < w {
      var z := Zeros(w - |b|);
      BinValueLeadingZeros(w - |b|, b);
      assert forall i :: 0 <= i < |z + b| ==> (z + b)[i] == (if i < |z| then z[i] else b[i - |z|]);
    }
  }

  /**
   * For -2^w <= n < 2^w and w >= 1 the text is exactly w binary digits whose
   * unsigned value is n mod 2^w: the two's-complement form.
   */
  lemma SignedBinTwosComplement(n: int, w: nat)
    requires w >= 1 && 0 <= n + Pow2(w) && n < Pow2(w)
    ensures var s := IntToSignedBin(n, w);
            |s| == w && IsBinary(s) && BinValue(s) == n % Pow2(w)
  {
    var p := Pow2(w);
    var v: nat := if n >= 0 then n else p + n;
    assert IntToSignedBin(n, w) == PadZeros(Bin(v), w);
    BinLength(v, w);
    BinValueOfBin(v);
    PadZerosValue(Bin(v), w);
    ModOfSmall(n, p);
  }

  /** The text carries a minus sign exactly when n is below -2^width. */
  lemma SignedBinSign(n: int, width: nat)
    ensures var s := IntToSignedBin(n, width);
            |s| >= 1 && (s[0] == '-' <==> n + Pow2(width) < 0)
  {
    var v := if n >= 0 then n else Pow2(width) + n;
    if v >= 0 {
      var b := Bin(v);
      var s := PadZeros(b, width);
      assert s[0] == '0' || s[0] == '1' by {
        if |b| < width {
          assert s[0] == Zeros(width - |b|)[0];
        } else {
          assert s[0] == b[0];
        }
      }
    }
  }

  /** The two fields of a multiplier literal. */
  datatype MultFields = MultFields(msb: int, lsb: int)

  function Abs(n: int): nat
  {
    if n < 0 then -n else n
  }

  /** The field choice of `opt_mult_str`. */
  function OptMultFields(kernelValue: int, expMax: int): MultFields
  {
    if kernelValue == 0 then MultFields(0, 0)
    else if IsPowerOfTwo(Abs(kernelValue)) then
      MultFields(if kernelValue < 0 then 2 else 1, Log2(Abs(kernelValue)))
    else MultFields(expMax, expMax)
  }

  /** Zero, a signed power of two, or the "no optimisation" code. */
  lemma OptMultFieldsMeaning(kernelValue: int, expMax: int)
    ensures kernelValue == 0 ==> OptMultFields(kernelValue, expMax) == MultFields(0, 0)
    ensures forall k: nat :: kernelValue == Pow2(k) ==> OptMultFields(kernelValue, expMax) == MultFields(1, k)
    ensures forall k: nat :: kernelValue + Pow2(k) == 0 ==> OptMultFields(kernelValue, expMax) == MultFields(2, k)
    ensures (kernelValue != 0 && forall k: nat :: Abs(kernelValue) != Pow2(k)) ==>
              OptMultFields(kernelValue, expMax) == MultFields(expMax, expMax)
  {
    PowerOfTwoExactly(Abs(kernelValue));
    forall k: nat | Abs(kernelValue) == Pow2(k)
      ensures Log2(Abs(kernelValue)) == k
    {
      Log2OfPow2(k);
    }
  }

  /** The multiplier a pair of fields stands for, or None for the "no optimisation" code. */
  function DecodeMultFields(f: MultFields): Option<int>
  {
    if f.msb == 0 && f.lsb == 0 then Some(0)
    else if f.msb == 1 && f.lsb >= 0 then Some(Pow2(f.lsb))
    else if f.msb == 2 && f.lsb >= 0 then Some(-(Pow2(f.lsb) as int))
    else None
  }

  /**
   * Decoding the fields gives the coefficient back when it is zero or a
   * signed power of two, and None otherwise, as long as the "no
   * optimisation" code is not itself a valid code (expMax >= 3, which holds
   * for `2^EXP_WIDTH - 1` when EXP_WIDTH >= 2).
   */
  lemma OptMultFieldsRoundTrip(kernelValue: int, expMax: int)
    requires expMax >= 3
    ensures DecodeMultFields(OptMultFields(kernelValue, expMax)) ==
              if kernelValue == 0 || IsPowerOfTwo(Abs(kernelValue)) then Some(kernelValue) else None
  {
    if kernelValue != 0 && IsPowerOfTwo(Abs(kernelValue)) {
      PowerOfTwoIff(Abs(kernelValue));
    }
  }

  /** `opt_mult_str`: the width header `2*EXP_WIDTH'b` followed by the two fields. */
  function OptMultStr(kernelValue: int, expWidth: nat, expMax: int): string
  {
    var f := OptMultFields(kernelValue, expMax);
    NatToString(2 * expWidth) + "'b" + IntToSignedBin(f.msb, expWidth) + IntToSignedBin(f.lsb, expWidth)
  }

  /** The header of a multiplier literal. */
  function MultHeader(expWidth: nat): string
  {
    NatToString(2 * expWidth) + "'b"
  }

  /**
   * When both fields fit the width, the literal is the header, then w
   * binary digits holding msb mod 2^w, then w holding lsb mod 2^w.
   */
  lemma OptMultStrLayout(kernelValue: int, expWidth: nat, expMax: int)
    requires expWidth >= 1
    requires var f := OptMultFields(kernelValue, expMax);
             0 <= f.msb + Pow2(expWidth) && f.msb < Pow2(expWidth) && 0 <= f.lsb + Pow2(expWidth) && f.lsb < Pow2(expWidth)
    ensures var s := OptMultStr(kernelValue, expWidth, expMax);
            var f := OptMultFields(kernelValue, expMax);
            var h := |MultHeader(expWidth)|;
            && |s| == h + 2 * expWidth
            && s[..h] == MultHeader(expWidth)
            && IsBinary(s[h..])
            && BinValue(s[h..h + expWidth]) == f.msb % Pow2(expWidth)
            && BinValue(s[h + expWidth..]) == f.lsb % Pow2(expWidth)
  {
    var f := OptMultFields(kernelValue, expMax);
    SignedBinTwosComplement(f.msb, expWidth);
    SignedBinTwosComplement(f.lsb, expWidth);
    ThreeParts(MultHeader(expWidth), IntToSignedBin(f.msb, expWidth), IntToSignedBin(f.lsb, expWidth));
  }

  lemma ThreeParts(h: string, m: string, l: string)
    requires IsBinary(m) && IsBinary(l)
    ensures var s := h + m + l;
            && s[..|h|] == h && s[|h|..|h| + |m|] == m && s[|h| + |m|..] == l
            && IsBinary(s[|h|..])
  {
    var s := h + m + l;
    assert s[|h|..] == m + l;
    assert forall i :: 0 <= i < |m + l| ==> (m + l)[i] == (if i < |m| then m[i] else l[i - |m|]);
  }

  /** A multiplier literal never contains a comma, so the list of them can be split back. */
  lemma OptMultStrNoComma(kernelValue: int, expWidth: nat, expMax: int)
    ensures ',' !in OptMultStr(kernelValue, expWidth, expMax)
  {
    var f := OptMultFields(kernelValue, expMax);
    var m := IntToSignedBin(f.msb, expWidth);
    var l := IntToSignedBin(f.lsb, expWidth);
    NoCommaInSignedBin(f.msb, expWidth);
    NoCommaInSignedBin(f.lsb, expWidth);
    var d := NatToString(2 * expWidth);
    assert ',' !in d by {
      assert forall i :: 0 <= i < |d| ==> IsDigit(d[i]);
    }
    var s := d + "'b" + m + l;
    forall i | 0 <= i < |s|
      ensures s[i] != ','
    {
      if i < |d| {
        assert s[i] == d[i];
      } else if i < |d| + 2 {
      } else if i < |d| + 2 + |m| {
        assert s[i] == m[i - |d| - 2];
      } else {
        assert s[i] == l[i - |d| - 2 - |m|];
      }
    }
  }

  lemma NoCommaInSignedBin(n: int, width: nat)
    ensures ',' !in IntToSignedBin(n, width)
  {
    var v := if n >= 0 then n else Pow2(width) + n;
    var b := Bin(if v >= 0 then v else -v);
    var p := PadZeros(b, if v >= 0 then width else if width > 0 then width - 1 else 0);
    assert IsBinary(p) by {
      if |b| < |p| {
        assert p == Zeros(|p| - |b|) + b;
        assert forall i :: 0 <= i < |p| ==> (if i < |p| - |b| then p[i] == '0' else p[i] == b[i - (|p| - |b|)]);
      }
    }
    assert ',' !in p by {
      assert forall i :: 0 <= i < |p| ==> p[i] != ',';
    }
    if v < 0 {
      assert IntToSignedBin(n, width) == "-" + p;
      assert forall i :: 0 <= i < |"-" + p| ==> ("-" + p)[i] != ',' by {
        assert forall i :: 1 <= i < |"-" + p| ==> ("-" + p)[i] == p[i - 1];
      }
    }
  }
}
