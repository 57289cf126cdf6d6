/**
 * Bytes, powers of two, and the fixed-width integer encodings that the
 * receiver and the command encoders use: little-endian (`int.to_bytes(k,
 * 'little')`) and big-endian (the wire order of headers and samples).
 */
module Bytes {

  type byte = x: int | 0 <= x < 256

  function Pow2(n: nat): (r: nat)
    ensures r >= 1
  {
    if n == 0 then 1 else 2 * Pow2(n - 1)
  }

  /** 256^k, the number of values that fit in k bytes. */
  function Pow256(k: nat): (r: nat)
    ensures r >= 1
  {
    if k == 0 then 1 else 256 * Pow256(k - 1)
  }

  lemma {:induction false} Pow2Add(a: nat, b: nat)
    ensures Pow2(a + b) == Pow2(a) * Pow2(b)
    decreases a
  {
    if a > 0 {
      Pow2Add(a - 1, b);
    }
  }

  lemma {:induction false} Pow2Monotone(a: nat, b: nat)
    requires a <= b
    ensures Pow2(a) <= Pow2(b)
    decreases b
  {
    if a < b {
      Pow2Monotone(a, b - 1);
    }
  }

  lemma {:induction false} Pow256IsPow2(k: nat)
    ensures Pow256(k) == Pow2(8 * k)
    decreases k
  {
    if k > 0 {
      Pow256IsPow2(k - 1);
      Pow2Add(8, 8 * (k - 1));
      assert Pow2(8) == 256;
      assert 8 * k == 8 + 8 * (k - 1);
    }
  }

  /** The k little-endian bytes of n, least significant first. */
  function LittleEndian(n: nat, k: nat): (bs: seq<byte>)
    requires n < Pow256(k)
    ensures |bs| == k
    decreases k
  {
    if k == 0 then [] else [n % 256] + LittleEndian(n / 256, k - 1)
  }

  /** The unsigned value of little-endian bytes. */
  function LittleEndianValue(bs: seq<byte>): nat
  {
    if bs == [] then 0 else bs[0] + 256 * LittleEndianValue(bs[1..])
  }

  lemma {:induction false} LittleEndianValueBound(bs: seq<byte>)
    ensures LittleEndianValue(bs) < Pow256(|bs|)
  {
    if bs != [] {
      LittleEndianValueBound(bs[1..]);
    }
  }

  /** Decoding the little-endian bytes of n gives n back. */
  lemma {:induction false} LittleEndianRoundTrip(n: nat, k: nat)
    requires n < Pow256(k)
    ensures LittleEndianValue(LittleEndian(n, k)) == n
    decreases k
  {
    if k > 0 {
      LittleEndianRoundTrip(n / 256, k - 1);
      assert LittleEndian(n, k)[1..] == LittleEndian(n / 256, k - 1);
    }
  }

  /** Encoding the value of k bytes gives the same bytes back. */
  lemma {:induction false} LittleEndianOfValue(bs: seq<byte>)
    ensures LittleEndianValue(bs) < Pow256(|bs|)
    ensures LittleEndian(LittleEndianValue(bs), |bs|) == bs
  {
    LittleEndianValueBound(bs);
    if bs != [] {
      LittleEndianOfValue(bs[1..]);
    }
  }

  /** The unsigned value of big-endian bytes, most significant first. */
  function BigEndianValue(bs: seq<byte>): nat
  {
    if bs == [] then 0 else 256 * BigEndianValue(bs[..|bs| - 1]) + bs[|bs| - 1]
  }

  /** The k big-endian bytes of n. */
  function BigEndian(n: nat, k: nat): (bs: seq<byte>)
    requires n < Pow256(k)
    ensures |bs| == k
    decreases k
  {
    if k == 0 then [] else BigEndian(n / 256, k - 1) + [n % 256]
  }

  /** Decoding the big-endian bytes of n gives n back. */
  lemma {:induction false} BigEndianRoundTrip(n: nat, k: nat)
    requires n < Pow256(k)
    ensures BigEndianValue(BigEndian(n, k)) == n
    decreases k
  {
    if k > 0 {
      var bs := BigEndian(n, k);
      assert bs[..k - 1] == BigEndian(n / 256, k - 1);
      BigEndianRoundTrip(n / 256, k - 1);
    }
  }

  /** The most significant byte weighs 256^(k-1). */
  lemma {:induction false} BigEndianFront(bs: seq<byte>)
    requires |bs| >= 1
    ensures BigEndianValue(bs) == bs[0] * Pow256(|bs| - 1) + BigEndianValue(bs[1..])
    decreases |bs|
  {
    if |bs| == 1 {
      assert bs[..0] == [] && bs[1..] == [];
    } else {
      var init := bs[..|bs| - 1];
      var tail := bs[1..];
      BigEndianFront(init);
      assert init[1..] == tail[..|tail| - 1];
      assert tail[|tail| - 1] == bs[|bs| - 1];
      assert BigEndianValue(tail) == 256 * BigEndianValue(init[1..]) + bs[|bs| - 1];
      assert Pow256(|bs| - 1) == 256 * Pow256(|bs| - 2);
      Regroup(bs[0], Pow256(|bs| - 2), BigEndianValue(init[1..]), bs[|bs| - 1]);
    }
  }

  lemma Regroup(x: int, p: int, v: int, y: int)
    ensures 256 * (x * p + v) + y == x * (256 * p) + (256 * v + y)
  {
  }
}
