/**
 * The command encoders of the control dialogs. Every command sent to the
 * FPGA is a sequence of six-byte records: a 4-byte little-endian value
 * followed by a 2-byte little-endian address in the FPGA's command-mapped
 * memory space. Text fields are parsed as Python's `int` does; floating
 * point inputs enter the model already scaled and rounded to an integer.
 */
module Commands {
  import opened Wrappers
  import opened Bytes
  import opened Text
  import opened Recording

  /**
   * The outcome of a `get_values` call: the bytes to send, `None` after the
   * warning box (`Rejected`), or an `OverflowError` that escapes the
   * handler, which only catches `ValueError`.
   */
  datatype Reply = Packet(bytes: seq<byte>) | Rejected | OverflowError

  const RoiPreTransformAddress: nat := 0x80
  const RoiPostTransformAddress: nat := 0x82
  const HomographyAddress: nat := 0x10
  const DfddAAddress: nat := 0x01
  const DfddBAddress: nat := 0x02
  const DfddConfThresholdAddress: nat := 0x50
  /** Fraction bits of the fixed-point constants A and B, and of the threshold. */
  const DfddFractionBitsK: nat := 12
  const DfddFractionBitsThreshold: nat := 0

  /** `int.to_bytes(k, 'little')`: an overflow for a negative or too large value. */
  function ToBytes(n: int, k: nat): (r: Option<seq<byte>>)
    ensures r.Some? <==> 0 <= n < Pow256(k)
    ensures r.Some? ==> r.value == LittleEndian(n, k)
  {
    if 0 <= n < Pow256(k) then
      Some(LittleEndian(n, k))
    else
      None
  }

  /** One record: the value's four bytes, then the address's two, both little-endian. */
  function RecordBytes(value: nat, addr: nat): (bs: seq<byte>)
    requires value < Pow256(4) && addr < Pow256(2)
  {
    LittleEndian(value, 4) + LittleEndian(addr, 2)
  }

  /** What the FPGA reads from a record: its value and its address. */
  function DecodeRecord(bs: seq<byte>): (nat, nat)
    requires |bs| == 6
  {
    (LittleEndianValue(bs[..4]), LittleEndianValue(bs[4..]))
  }

  /** A record is six bytes and decodes to its value and address. */
  lemma RecordRoundTrip(value: nat, addr: nat)
    requires value < Pow256(4) && addr < Pow256(2)
    ensures |RecordBytes(value, addr)| == 6
    ensures DecodeRecord(RecordBytes(value, addr)) == (value, addr)
  {
    var bs := RecordBytes(value, addr);
    assert bs[..4] == LittleEndian(value, 4);
    assert bs[4..] == LittleEndian(addr, 2);
    LittleEndianRoundTrip(value, 4);
    LittleEndianRoundTrip(addr, 2);
  }

  // ------------------------------------------------------------ raw command

  /**
   * `CommandWriteWidget.get_values`: the address and data are hexadecimal
   * text. The address is converted (and its bytes taken) before the data is
   * parsed.
   */
  function CommandWrite(addressText: string, dataText: string): Reply
  {
    match ParseInt(addressText, 16)
    case None => Rejected
    case Some(a) =>
      match ToBytes(a, 2)
      case None => OverflowError
      case Some(addrBytes) =>
        match ParseInt(dataText, 16)
        case None => Rejected
        case Some(d) =>
          match ToBytes(d, 4)
          case None => OverflowError
          case Some(dataBytes) => Packet(dataBytes + addrBytes)
  }

  /**
   * A raw command succeeds exactly when both fields parse and fit, and then
   * it is the single record (data, address). Text that does not parse is
   * rejected; a negative or oversize value overflows.
   */
  lemma CommandWriteOutcome(addressText: string, dataText: string)
    ensures var a := ParseInt(addressText, 16);
            var d := ParseInt(dataText, 16);
            && (CommandWrite(addressText, dataText).Packet? <==>
                  a.Some? && d.Some? && 0 <= a.value < 0x1_0000 && 0 <= d.value < 0x1_0000_0000)
            && (CommandWrite(addressText, dataText).Rejected? <==>
                  a.None? || (0 <= a.value < 0x1_0000 && d.None?))
            && (CommandWrite(addressText, dataText).Packet? ==>
                  var bs := CommandWrite(addressText, dataText).bytes;
                  |bs| == 6 && DecodeRecord(bs) == (d.value, a.value))
  {
    assert Pow256(2) == 0x1_0000 && Pow256(4) == 0x1_0000_0000;
    var r := CommandWrite(addressText, dataText);
    if r.Packet? {
      var a := ParseInt(addressText, 16).value;
      var d := ParseInt(dataText, 16).value;
      assert r.bytes == RecordBytes(d, a);
      RecordRoundTrip(d, a);
    }
  }

  /** Hexadecimal text of an address and a data word that fit gives back their record. */
  lemma CommandWriteOfHex(addr: nat, data: nat)
    requires addr < 0x1_0000 && data < 0x1_0000_0000
    ensures CommandWrite(HexString(addr), HexString(data)) == Packet(RecordBytes(data, addr))
  {
    ParseHexString(addr);
    ParseHexString(data);
    assert Pow256(2) == 0x1_0000 && Pow256(4) == 0x1_0000_0000;
  }

  // ------------------------------------------------------------ region of interest

  /**
   * `RoiSendWidget.get_values` at address `startAddr`: decimal x and y;
   * text that does not parse, or a negative value, is rejected; the
   * packet holds y at `startAddr` and x at `startAddr + 1`.
   */
  function RoiCommand(xText: string, yText: string, startAddr: nat): Reply
  {
    match ParseInt(xText, 10)
    case None => Rejected
    case Some(x) =>
      match ParseInt(yText, 10)
      case None => Rejected
      case Some(y) =>
        if x < 0 || y < 0 then Rejected
        else RoiReply(x, y, startAddr)
  }

  /** The byte conversions of a region command once x and y have parsed. */
  function RoiReply(x: int, y: int, startAddr: nat): Reply
  {
    match ToBytes(x, 4)
    case None => OverflowError
    case Some(xBytes) =>
      match ToBytes(y, 4)
      case None => OverflowError
      case Some(yBytes) =>
        match ToBytes(startAddr, 2)
        case None => OverflowError
        case Some(a0) =>
          match ToBytes(startAddr + 1, 2)
          case None => OverflowError
          case Some(a1) => Packet(yBytes + a0 + xBytes + a1)
  }

  lemma RoiReplyPacket(x: int, y: int, startAddr: nat)
    ensures RoiReply(x, y, startAddr).Packet? <==>
              0 <= x < 0x1_0000_0000 && 0 <= y < 0x1_0000_0000 && startAddr + 1 < 0x1_0000
    ensures !RoiReply(x, y, startAddr).Rejected?
  {
    assert Pow256(2) == 0x1_0000 && Pow256(4) == 0x1_0000_0000;
  }

  /** A region command is rejected exactly when a field does not parse or is negative. */
  lemma RoiCommandRejected(xText: string, yText: string, startAddr: nat)
    ensures var x := ParseInt(xText, 10);
            var y := ParseInt(yText, 10);
            RoiCommand(xText, yText, startAddr).Rejected? <==> x.None? || y.None? || x.value < 0 || y.value < 0
  {
  }

  /**
   * A region command goes out exactly when x and y parse, are not negative
   * and fit in 32 bits, and both addresses fit in 16 bits.
   */
  lemma RoiCommandPacket(xText: string, yText: string, startAddr: nat)
    ensures var x := ParseInt(xText, 10);
            var y := ParseInt(yText, 10);
            RoiCommand(xText, yText, startAddr).Packet? <==>
              && x.Some? && y.Some? && 0 <= x.value < 0x1_0000_0000 && 0 <= y.value < 0x1_0000_0000
              && startAddr + 1 < 0x1_0000
  {
    var x := ParseInt(xText, 10);
    var y := ParseInt(yText, 10);
    if x.Some? && y.Some? && x.value >= 0 && y.value >= 0 {
      RoiReplyPacket(x.value, y.value, startAddr);
    }
  }

  /** A region packet is the record (y, startAddr) followed by the record (x, startAddr + 1). */
  lemma RoiCommandBytes(xText: string, yText: string, startAddr: nat)
    requires RoiCommand(xText, yText, startAddr).Packet?
    ensures var x := ParseInt(xText, 10).value;
            var y := ParseInt(yText, 10).value;
            && 0 <= x < Pow256(4) && 0 <= y < Pow256(4) && startAddr + 1 < Pow256(2)
            && RoiCommand(xText, yText, startAddr).bytes == RecordBytes(y, startAddr) + RecordBytes(x, startAddr + 1)
  {
  }

  /** A region packet decodes to the record of y at startAddr followed by that of x at startAddr + 1. */
  lemma RoiCommandRecords(xText: string, yText: string, startAddr: nat)
    requires RoiCommand(xText, yText, startAddr).Packet?
    ensures var bs := RoiCommand(xText, yText, startAddr).bytes;
            && |bs| == 12
            && DecodeRecord(bs[..6]) == (ParseInt(yText, 10).value, startAddr)
            && DecodeRecord(bs[6..]) == (ParseInt(xText, 10).value, startAddr + 1)
  {
    RoiCommandBytes(xText, yText, startAddr);
    var bs := RoiCommand(xText, yText, startAddr).bytes;
    var x := ParseInt(xText, 10).value;
    var y := ParseInt(yText, 10).value;
    RecordRoundTrip(y, startAddr);
    RecordRoundTrip(x, startAddr + 1);
    assert bs[..6] == RecordBytes(y, startAddr);
    assert bs[6..] == RecordBytes(x, startAddr + 1);
  }

  /**
   * At either button's start address a region command goes out exactly when
   * x and y parse as integers in 0 .. 2^32-1: the address never overflows.
   */
  lemma {:induction false} RoiButtonPacket(xText: string, yText: string, startAddr: nat)
    requires startAddr == RoiPreTransformAddress || startAddr == RoiPostTransformAddress
    ensures var x := ParseInt(xText, 10);
            var y := ParseInt(yText, 10);
            RoiCommand(xText, yText, startAddr).Packet? <==>
              x.Some? && y.Some? && 0 <= x.value < 0x1_0000_0000 && 0 <= y.value < 0x1_0000_0000
    ensures var x := ParseInt(xText, 10);
            var y := ParseInt(yText, 10);
            RoiCommand(xText, yText, startAddr).OverflowError? <==>
              && x.Some? && y.Some? && x.value >= 0 && y.value >= 0
              && (x.value >= 0x1_0000_0000 || y.value >= 0x1_0000_0000)
  {
    RoiCommandPacket(xText, yText, startAddr);
    RoiCommandRejected(xText, yText, startAddr);
  }

  // ------------------------------------------------------------ fixed point

  /** The value field of a scaled fixed-point number: the integer mod 2^32, little-endian. */
  function FixedPointField(scaled: int): (bs: seq<byte>)
    ensures |bs| == 4
  {
    LittleEndian(scaled % 0x1_0000_0000, 4)
  }

  /** Reading four bytes as a 32-bit two's-complement number. */
  function SignedValue(bs: seq<byte>): int
  {
    var v := LittleEndianValue(bs);
    if v < 0x8000_0000 then v else v - 0x1_0000_0000
  }

  /**
   * The field holds the scaled number mod 2^32, and a number in the 32-bit
   * signed range reads back unchanged as two's complement.
   */
  lemma FixedPointFieldValue(scaled: int)
    ensures LittleEndianValue(FixedPointField(scaled)) == scaled % 0x1_0000_0000
    ensures -0x8000_0000 <= scaled < 0x8000_0000 ==> SignedValue(FixedPointField(scaled)) == scaled
  {
    assert Pow256(4) == 0x1_0000_0000;
    LittleEndianRoundTrip(scaled % 0x1_0000_0000, 4);
  }

  // ------------------------------------------------------------ homography

  /** The matrix is 3 by 3. */
  predicate Is3x3(m: seq<seq<int>>)
  {
    |m| == 3 && forall i :: 0 <= i < 3 ==> |m[i]| == 3
  }

  /** The entries of a 3 by 3 matrix in row-major order. */
  function RowMajor(m: seq<seq<int>>): (flat: seq<int>)
    requires Is3x3(m)
    ensures |flat| == 9
  {
    m[0] + m[1] + m[2]
  }

  /** Entry (i, j) sits at position 3 * i + j of the row-major order. */
  lemma RowMajorAt(m: seq<seq<int>>, i: nat, j: nat)
    requires Is3x3(m) && i < 3 && j < 3
    ensures RowMajor(m)[3 * i + j] == m[i][j]
  {
  }

  /** Position k of the row-major order is entry (k / 3, k % 3). */
  lemma RowMajorIndex(m: seq<seq<int>>, k: nat)
    requires Is3x3(m) && k < 9
    ensures RowMajor(m)[k] == m[k / 3][k % 3]
  {
    RowMajorAt(m, k / 3, k % 3);
  }

  /** The two address bytes of a record. */
  function AddressBytes(addr: nat): (bs: seq<byte>)
    requires addr < 0x1_0000
    ensures |bs| == 2
  {
    assert Pow256(2) == 0x1_0000;
    LittleEndian(addr, 2)
  }

  /** The records of the first n entries, entry k at address startAddr + k. */
  function EntryRecords(entries: seq<int>, startAddr: nat, n: nat): (bs: seq<byte>)
    requires n <= |entries| && (n == 0 || startAddr + n <= 0x1_0000)
    ensures |bs| == 6 * n
  {
    if n == 0 then []
    else
      EntryRecords(entries, startAddr, n - 1) + FixedPointField(entries[n - 1]) + AddressBytes(startAddr + n - 1)
  }

  /** One more record: the next entry's field and the next address's bytes. */
  lemma EntryRecordsStep(entries: seq<int>, startAddr: nat, n: nat, bs: seq<byte>, addrBytes: seq<byte>)
    requires n < |entries| && startAddr + n < 0x1_0000
    requires bs == EntryRecords(entries, startAddr, n)
    requires addrBytes == AddressBytes(startAddr + n)
    ensures bs + FixedPointField(entries[n]) + addrBytes == EntryRecords(entries, startAddr, n + 1)
  {
  }

  /**
   * What `HomographyWidget.get_values` sends for a matrix of scaled
   * entries: a matrix that is not 3 by 3 is rejected; otherwise nine
   * records, unless an address past 0xffff overflows.
   */
  function Homography(m: seq<seq<int>>, startAddr: nat): Reply
  {
    if !Is3x3(m) then Rejected
    else if startAddr + 9 > 0x1_0000 then OverflowError
    else Packet(EntryRecords(RowMajor(m), startAddr, |RowMajor(m)|))
  }

  /** Record k holds entry k's field and the address startAddr + k. */
  lemma {:induction false} EntryRecordAt(entries: seq<int>, startAddr: nat, n: nat, k: nat)
    requires n <= |entries| && startAddr + n <= 0x1_0000 && k < n
    ensures EntryRecords(entries, startAddr, n)[6 * k..6 * k + 6]
         == FixedPointField(entries[k]) + AddressBytes(startAddr + k)
    decreases n
  {
    var prev := EntryRecords(entries, startAddr, n - 1);
    var field := FixedPointField(entries[n - 1]);
    var addr := AddressBytes(startAddr + n - 1);
    var want := FixedPointField(entries[k]) + AddressBytes(startAddr + k);
    if k < n - 1 {
      EntryRecordAt(entries, startAddr, n - 1, k);
    } else {
      assert k == n - 1;
    }
    RecordAtStep(prev, field, addr, k, n, want);
  }

  /** Record k of the first n records: an earlier record of the first n - 1, or the newly appended one. */
  lemma RecordAtStep(prev: seq<byte>, field: seq<byte>, addr: seq<byte>, k: nat, n: nat, want: seq<byte>)
    requires |prev| == 6 * (n - 1) && |field| == 4 && |addr| == 2 && k < n
    requires k < n - 1 ==> prev[6 * k..6 * k + 6] == want
    requires k == n - 1 ==> field + addr == want
    ensures (prev + field + addr)[6 * k..6 * k + 6] == want
  {
    if k < n - 1 {
      assert (prev + field + addr)[6 * k..6 * k + 6] == prev[6 * k..6 * k + 6];
    } else {
      assert (prev + field + addr)[6 * k..6 * k + 6] == field + addr;
    }
  }

  /**
   * A homography packet is 54 bytes; its k-th record carries entry
   * (k / 3, k % 3), as a two's-complement field, at address startAddr + k.
   */
  lemma HomographyPacket(m: seq<seq<int>>, startAddr: nat, k: nat)
    requires Homography(m, startAddr).Packet? && k < 9
    ensures var bs := Homography(m, startAddr).bytes;
            && |bs| == 54
            && DecodeRecord(bs[6 * k..6 * k + 6]) == (m[k / 3][k % 3] % 0x1_0000_0000, startAddr + k)
  {
    var bs := Homography(m, startAddr).bytes;
    var flat := RowMajor(m);
    EntryRecordAt(flat, startAddr, |flat|, k);
    RowMajorIndex(m, k);
    var rec := bs[6 * k..6 * k + 6];
    assert rec[..4] == FixedPointField(flat[k]);
    assert rec[4..] == LittleEndian(startAddr + k, 2);
    FixedPointFieldValue(flat[k]);
    assert Pow256(2) == 0x1_0000;
    LittleEndianRoundTrip(startAddr + k, 2);
  }

  /** A homography command overflows exactly when one of its nine addresses passes 0xffff. */
  lemma HomographyOutcome(m: seq<seq<int>>, startAddr: nat)
    ensures Homography(m, startAddr).Rejected? <==> !Is3x3(m)
    ensures Homography(m, startAddr).OverflowError? <==> Is3x3(m) && startAddr + 8 >= 0x1_0000
    ensures Is3x3(m) && startAddr == HomographyAddress ==> Homography(m, startAddr).Packet?
  {
  }

  /**
   * The loops of `HomographyWidget.get_values`: entries row by row, each
   * field followed by the current address, which counts up by one.
   */
  method HomographyCommand(m: seq<seq<int>>, startAddr: nat) returns (r: Reply)
    ensures r == Homography(m, startAddr)
  {
    if !Is3x3(m) {
      return Rejected;
    }
    ghost var flat := RowMajor(m);
    ghost var k := 0;
    var returnBytes: seq<byte> := [];
    var addr := startAddr;
    var i := 0;
    while i < 3
      invariant 0 <= i <= 3 && k == 3 * i
      invariant addr == startAddr + k
      invariant k > 0 ==> addr <= 0x1_0000
      invariant returnBytes == EntryRecords(flat, startAddr, k)
    {
      var j := 0;
      while j < 3
        invariant 0 <= j <= 3 && k == 3 * i + j
        invariant addr == startAddr + k
        invariant k > 0 ==> addr <= 0x1_0000
        invariant returnBytes == EntryRecords(flat, startAddr, k)
      {
        if addr >= 0x1_0000 {
          return OverflowError;
        }
        var addrBytes := AddressBytes(addr);
        RowMajorAt(m, i, j);
        EntryRecordsStep(flat, startAddr, k, returnBytes, addrBytes);
        returnBytes := returnBytes + FixedPointField(m[i][j]) + addrBytes;
        addr := addr + 1;
        j := j + 1;
        k := k + 1;
      }
      i := i + 1;
    }
    return Packet(returnBytes);
  }

  // ------------------------------------------------------------ DfDD parameters

  /** The three parameters of the DfDD core. */
  datatype DfddParameter = A | B | ConfThreshold

  /** The address each parameter's button sends to. */
  function DfddAddress(p: DfddParameter): nat
  {
    match p
    case A => DfddAAddress
    case B => DfddBAddress
    case ConfThreshold => DfddConfThresholdAddress
  }

  /** The fraction bits each parameter's text is scaled by before rounding. */
  function DfddFractionBits(p: DfddParameter): nat
  {
    match p
    case A => DfddFractionBitsK
    case B => DfddFractionBitsK
    case ConfThreshold => DfddFractionBitsThreshold
  }

  /**
   * `DfddParametersSendWidget.get_values` at `startAddr`: `scaled` is the
   * text as a number scaled by 2^fraction-bits and rounded, or `None` for
   * text that is not a number. The value field cannot overflow (it is
   * masked to 32 bits); the address can.
   */
  function DfddCommand(scaled: Option<int>, startAddr: nat): Reply
  {
    match scaled
    case None => Rejected
    case Some(q) =>
      match ToBytes(startAddr, 2)
      case None => OverflowError
      case Some(addrBytes) => Packet(FixedPointField(q) + addrBytes)
  }

  /**
   * Each parameter button sends one record, the scaled number mod 2^32 at
   * the parameter's address, and rejects text that is not a number.
   */
  lemma DfddCommandRecord(p: DfddParameter, scaled: Option<int>)
    ensures DfddCommand(scaled, DfddAddress(p)).Rejected? <==> scaled.None?
    ensures scaled.Some? ==>
              && DfddCommand(scaled, DfddAddress(p)).Packet?
              && |DfddCommand(scaled, DfddAddress(p)).bytes| == 6
              && DecodeRecord(DfddCommand(scaled, DfddAddress(p)).bytes)
                 == (scaled.value % 0x1_0000_0000, DfddAddress(p))
  {
    assert Pow256(2) == 0x1_0000;
    if scaled.Some? {
      var bs := DfddCommand(scaled, DfddAddress(p)).bytes;
      assert bs[..4] == FixedPointField(scaled.value);
      assert bs[4..] == LittleEndian(DfddAddress(p), 2);
      FixedPointFieldValue(scaled.value);
      LittleEndianRoundTrip(DfddAddress(p), 2);
    }
  }

  // ------------------------------------------------------------ capture dialog

  /**
   * `CaptureDialog.get_values` as the decoder sees it: the frame count is
   * the constant 1 whatever the spin box holds; the path is the text field.
   */
  function CaptureValues(spinBoxFrames: int, filename: string): CaptureRequest
  {
    CaptureRequest(1, filename)
  }

  /** A request from the capture dialog arms the recorder for exactly one frame, never several. */
  lemma CaptureDialogArmsOneFrame(r: Recorder, spinBoxFrames: int, filename: string)
    ensures Setup(r, Some(CaptureValues(spinBoxFrames, filename))).remaining == 1
    ensures !Setup(r, Some(CaptureValues(spinBoxFrames, filename))).several
  {
  }
}
