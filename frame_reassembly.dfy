/**
 * The frame reassembler of the camera receiver (`BinaryDecoder`): bytes
 * from the link are accumulated, every complete marker occurrence (the
 * marker plus its 6-byte header) is located, and once two are known the
 * bytes between the first header and the second marker are emitted as one
 * frame and the accumulator is trimmed to start at the second marker.
 */
module FrameReassembly {
  import opened Wrappers
  import opened Bytes
  import Grid

  /** The marker the pipeline uses: the ASCII bytes of "BIVFRAME". */
  const PipelineMarker: seq<byte> := [66, 73, 86, 70, 82, 65, 77, 69]

  /** width u16, height u16, channels u8, bit width u8, all big-endian. */
  const HeaderLength: nat := 6

  datatype Header = Header(width: nat, height: nat, channels: nat, dataWidth: nat)

  datatype Frame = Frame(header: Header, payload: seq<byte>)

  /** A complete marker occurrence: the marker matches at i and its header has arrived. */
  predicate MarkerAt(acc: seq<byte>, marker: seq<byte>, i: nat)
  {
    i + |marker| + HeaderLength <= |acc| && acc[i .. i + |marker|] == marker
  }

  /** The header whose six bytes start at p. */
  function HeaderAt(acc: seq<byte>, p: nat): Header
    requires p + HeaderLength <= |acc|
  {
    Header(acc[p] as int * 256 + acc[p + 1], acc[p + 2] as int * 256 + acc[p + 3], acc[p + 4], acc[p + 5])
  }

  /** The two sizes are 16-bit big-endian numbers, the other two fields single bytes. */
  lemma HeaderAtBigEndian(acc: seq<byte>, p: nat)
    requires p + HeaderLength <= |acc|
    ensures HeaderAt(acc, p).width == BigEndianValue(acc[p .. p + 2]) < 65536
    ensures HeaderAt(acc, p).height == BigEndianValue(acc[p + 2 .. p + 4]) < 65536
    ensures HeaderAt(acc, p).channels == acc[p + 4] && HeaderAt(acc, p).dataWidth == acc[p + 5]
  {
    BigEndianPair(acc, p);
    BigEndianPair(acc, p + 2);
  }

  lemma BigEndianPair(acc: seq<byte>, p: nat)
    requires p + 2 <= |acc|
    ensures BigEndianValue(acc[p .. p + 2]) == acc[p] as int * 256 + acc[p + 1]
  {
    var w := acc[p .. p + 2];
    assert BigEndianValue(w) == 256 * BigEndianValue(w[..1]) + w[1];
    assert BigEndianValue(w[..1]) == 256 * BigEndianValue(w[..1][..0]) + w[..1][0];
    assert w[..1][..0] == [];
  }

  // ------------------------------------------------------------ the scan

  /** Complete marker occurrences at positions i, i+1, ... in increasing order. */
  function MatchesFrom(acc: seq<byte>, marker: seq<byte>, i: nat): seq<nat>
    decreases |acc| - i
  {
    if i >= |acc| then []
    else (if MarkerAt(acc, marker, i) then [i] else []) + MatchesFrom(acc, marker, i + 1)
  }

  /** All complete marker occurrences of the accumulator, in increasing order. */
  function Matches(acc: seq<byte>, marker: seq<byte>): seq<nat>
  {
    MatchesFrom(acc, marker, 0)
  }

  predicate StrictlyIncreasing(s: seq<nat>)
  {
    forall a, b :: 0 <= a < b < |s| ==> s[a] < s[b]
  }

  lemma {:induction false} MatchesFromExact(acc: seq<byte>, marker: seq<byte>, i: nat)
    ensures forall k :: 0 <= k < |MatchesFrom(acc, marker, i)| ==>
      MatchesFrom(acc, marker, i)[k] >= i && MarkerAt(acc, marker, MatchesFrom(acc, marker, i)[k])
    ensures forall j :: i <= j && MarkerAt(acc, marker, j) ==> j in MatchesFrom(acc, marker, i)
    ensures StrictlyIncreasing(MatchesFrom(acc, marker, i))
    decreases |acc| - i
  {
    if i < |acc| {
      var rest := MatchesFrom(acc, marker, i + 1);
      MatchesFromExact(acc, marker, i + 1);
      if MarkerAt(acc, marker, i) {
        PrependIncreasing(i, rest);
      } else {
        assert MatchesFrom(acc, marker, i) == rest;
      }
    }
  }

  /** Putting a smaller position in front keeps a scan result strictly increasing. */
  lemma PrependIncreasing(i: nat, rest: seq<nat>)
    requires StrictlyIncreasing(rest)
    requires forall k :: 0 <= k < |rest| ==> rest[k] >= i + 1
    ensures StrictlyIncreasing([i] + rest)
  {
    var s := [i] + rest;
    forall a, b | 0 <= a < b < |s|
      ensures s[a] < s[b]
    {
      assert s[b] == rest[b - 1];
      if a > 0 {
        assert s[a] == rest[a - 1];
      }
    }
  }

  /**
   * The scan is exact: its positions increase strictly, each is a complete
   * marker occurrence, and every complete occurrence is among them.
   */
  lemma MatchesExact(acc: seq<byte>, marker: seq<byte>)
    ensures StrictlyIncreasing(Matches(acc, marker))
    ensures forall k :: 0 <= k < |Matches(acc, marker)| ==> MarkerAt(acc, marker, Matches(acc, marker)[k])
    ensures forall j: nat :: MarkerAt(acc, marker, j) <==> j in Matches(acc, marker)
  {
    MatchesFromExact(acc, marker, 0);
  }

  /** numpy's `flatnonzero(acc == b)` from position i on. */
  function CandidatesFrom(acc: seq<byte>, b: byte, i: nat): seq<nat>
    decreases |acc| - i
  {
    if i >= |acc| then []
    else (if acc[i] == b then [i] else []) + CandidatesFrom(acc, b, i + 1)
  }

  /** The candidates are exactly the positions from i on holding b, in increasing order. */
  lemma {:induction false} CandidatesExact(acc: seq<byte>, b: byte, i: nat)
    ensures forall k :: 0 <= k < |CandidatesFrom(acc, b, i)| ==>
      i <= CandidatesFrom(acc, b, i)[k] < |acc| && acc[CandidatesFrom(acc, b, i)[k]] == b
    ensures forall j :: i <= j < |acc| && acc[j] == b ==> j in CandidatesFrom(acc, b, i)
    ensures StrictlyIncreasing(CandidatesFrom(acc, b, i))
    decreases |acc| - i
  {
    if i < |acc| {
      CandidatesExact(acc, b, i + 1);
    }
  }

  /** The candidates among cs that are complete marker occurrences, in order. */
  function KeepMarkers(acc: seq<byte>, marker: seq<byte>, cs: seq<nat>): (r: seq<nat>)
    ensures forall k :: 0 <= k < |r| ==> MarkerAt(acc, marker, r[k])
  {
    if cs == [] then []
    else KeepMarkers(acc, marker, cs[..|cs| - 1]) + (if MarkerAt(acc, marker, cs[|cs| - 1]) then [cs[|cs| - 1]] else [])
  }

  lemma {:induction false} KeepMarkersAppend(acc: seq<byte>, marker: seq<byte>, a: seq<nat>, b: seq<nat>)
    ensures KeepMarkers(acc, marker, a + b) == KeepMarkers(acc, marker, a) + KeepMarkers(acc, marker, b)
    decreases |b|
  {
    if b != [] {
      assert (a + b)[..|a + b| - 1] == a + b[..|b| - 1];
      assert (a + b)[|a + b| - 1] == b[|b| - 1];
      KeepMarkersAppend(acc, marker, a, b[..|b| - 1]);
      var tail: seq<nat> := if MarkerAt(acc, marker, b[|b| - 1]) then [b[|b| - 1]] else [];
      calc {
        KeepMarkers(acc, marker, a + b);
        KeepMarkers(acc, marker, a + b[..|b| - 1]) + tail;
        (KeepMarkers(acc, marker, a) + KeepMarkers(acc, marker, b[..|b| - 1])) + tail;
        KeepMarkers(acc, marker, a) + (KeepMarkers(acc, marker, b[..|b| - 1]) + tail);
      }
    } else {
      assert a + b == a;
    }
  }

  lemma {:induction false} KeepMarkersNone(acc: seq<byte>, marker: seq<byte>, cs: seq<nat>)
    requires forall k :: 0 <= k < |cs| ==> !MarkerAt(acc, marker, cs[k])
    ensures KeepMarkers(acc, marker, cs) == []
    decreases |cs|
  {
    if cs != [] {
      KeepMarkersNone(acc, marker, cs[..|cs| - 1]);
    }
  }

  /** Scanning only the positions holding the marker's first byte finds the same occurrences. */
  lemma {:induction false} CandidatesSuffice(acc: seq<byte>, marker: seq<byte>, i: nat)
    requires |marker| >= 1
    ensures KeepMarkers(acc, marker, CandidatesFrom(acc, marker[0], i)) == MatchesFrom(acc, marker, i)
    decreases |acc| - i
  {
    if i < |acc| {
      CandidatesSuffice(acc, marker, i + 1);
      var head: seq<nat> := if acc[i] == marker[0] then [i] else [];
      KeepMarkersAppend(acc, marker, head, CandidatesFrom(acc, marker[0], i + 1));
      if acc[i] == marker[0] {
        assert KeepMarkers(acc, marker, head) == (if MarkerAt(acc, marker, i) then [i] else []) by {
          assert head[..0] == [];
        }
      } else {
        assert !MarkerAt(acc, marker, i) by {
          if i + |marker| + HeaderLength <= |acc| {
            assert acc[i .. i + |marker|][0] == acc[i];
          }
        }
      }
    }
  }

  lemma KeepMarkersSnoc(acc: seq<byte>, marker: seq<byte>, cs: seq<nat>, k: nat)
    requires k < |cs|
    ensures KeepMarkers(acc, marker, cs[..k + 1])
         == KeepMarkers(acc, marker, cs[..k]) + (if MarkerAt(acc, marker, cs[k]) then [cs[k]] else [])
  {
    assert cs[..k + 1][..k] == cs[..k];
  }

  /**
   * After a candidate without room for marker and header no later candidate
   * has room either, so stopping there loses no occurrence.
   */
  lemma NoRoomAfter(acc: seq<byte>, marker: seq<byte>, k: nat)
    requires |marker| >= 1
    requires k < |CandidatesFrom(acc, marker[0], 0)|
    requires CandidatesFrom(acc, marker[0], 0)[k] + |marker| + HeaderLength > |acc|
    ensures KeepMarkers(acc, marker, CandidatesFrom(acc, marker[0], 0))
         == KeepMarkers(acc, marker, CandidatesFrom(acc, marker[0], 0)[..k])
  {
    var cs := CandidatesFrom(acc, marker[0], 0);
    CandidatesExact(acc, marker[0], 0);
    LaterNoRoom(acc, marker, cs, k);
    KeepMarkersNone(acc, marker, cs[k..]);
    KeepMarkersAppend(acc, marker, cs[..k], cs[k..]);
    Rejoin(cs, k);
  }

  /** Candidates from a roomless one on are roomless too, as they only grow. */
  lemma LaterNoRoom(acc: seq<byte>, marker: seq<byte>, cs: seq<nat>, k: nat)
    requires StrictlyIncreasing(cs) && k < |cs|
    requires cs[k] + |marker| + HeaderLength > |acc|
    ensures forall j :: 0 <= j < |cs[k..]| ==> !MarkerAt(acc, marker, cs[k..][j])
  {
    forall j | 0 <= j < |cs[k..]|
      ensures !MarkerAt(acc, marker, cs[k..][j])
    {
      assert cs[k..][j] == cs[k + j];
      assert cs[k] <= cs[k + j];
    }
  }

  lemma Rejoin(cs: seq<nat>, k: nat)
    requires k <= |cs|
    ensures cs[..k] + cs[k..] == cs
  {
  }

  lemma LastHeaderSnoc(acc: seq<byte>, marker: seq<byte>, m: seq<nat>, i: nat, h0: Header)
    requires forall k :: 0 <= k < |m| ==> MarkerAt(acc, marker, m[k])
    requires MarkerAt(acc, marker, i)
    ensures forall k :: 0 <= k < |m + [i]| ==> MarkerAt(acc, marker, (m + [i])[k])
    ensures LastHeader(acc, marker, m + [i], h0) == HeaderAt(acc, i + |marker|)
  {
    assert (m + [i])[|m|] == i;
  }

  // ------------------------------------------------------------ one chunk

  /** What the reassembler keeps between chunks: the accumulator and the last header parsed. */
  datatype Reassembler = Reassembler(acc: seq<byte>, header: Header)

  /** The header fields after a scan: those of the last occurrence, or the old ones. */
  function LastHeader(acc: seq<byte>, marker: seq<byte>, m: seq<nat>, old_header: Header): Header
    requires forall k :: 0 <= k < |m| ==> MarkerAt(acc, marker, m[k])
  {
    if m == [] then old_header
    else
      assert MarkerAt(acc, marker, m[|m| - 1]);
      HeaderAt(acc, m[|m| - 1] + |marker|)
  }

  /**
   * One iteration of the reassembler's run loop as written: append the chunk,
   * scan, and emit at most one frame. The frame carries the header of the
   * LAST occurrence found, and its payload is the clipped slice between the
   * first header and the second marker.
   */
  function Feed(marker: seq<byte>, s: Reassembler, chunk: seq<byte>): (Reassembler, Option<Frame>)
  {
    var acc := s.acc + chunk;
    var m := Matches(acc, marker);
    MatchesExact(acc, marker);
    var header := LastHeader(acc, marker, m, s.header);
    if |m| > 1 then
      (Reassembler(acc[m[1]..], header),
       Some(Frame(header, Grid.Slice(acc, m[0] + |marker| + HeaderLength, m[1]))))
    else
      (Reassembler(acc, header), None)
  }

  /** A frame is emitted exactly when the scan finds two or more occurrences. */
  lemma FeedEmitsIff(marker: seq<byte>, s: Reassembler, chunk: seq<byte>)
    ensures Feed(marker, s, chunk).1.Some? <==> |Matches(s.acc + chunk, marker)| >= 2
    ensures Feed(marker, s, chunk).1.None? ==> Feed(marker, s, chunk).0.acc == s.acc + chunk
  {
  }

  /**
   * An emitted frame's payload is exactly the bytes between the end of the
   * first header and the start of the second marker (empty when those
   * overlap), and the accumulator is trimmed to begin at the second marker,
   * which is complete there.
   */
  lemma FeedFrame(marker: seq<byte>, s: Reassembler, chunk: seq<byte>)
    requires |Matches(s.acc + chunk, marker)| >= 2
    ensures var acc := s.acc + chunk;
            var m := Matches(acc, marker);
            var start := m[0] + |marker| + HeaderLength;
            var (s', f) := Feed(marker, s, chunk);
            && m[0] < m[1] <= |acc|
            && f.Some?
            && (start <= m[1] ==> f.value.payload == acc[start .. m[1]])
            && (start > m[1] ==> f.value.payload == [])
            && s'.acc == acc[m[1]..]
            && MarkerAt(s'.acc, marker, 0)
  {
    var acc := s.acc + chunk;
    var m := Matches(acc, marker);
    MatchesExact(acc, marker);
    assert m[0] < m[1];
    var rest := acc[m[1]..];
    assert rest[0 .. |marker|] == acc[m[1] .. m[1] + |marker|];
  }

  /** The header fields after a chunk are those of the last occurrence found in it. */
  lemma FeedHeader(marker: seq<byte>, s: Reassembler, chunk: seq<byte>)
    ensures var acc := s.acc + chunk;
            var m := Matches(acc, marker);
            var (s', f) := Feed(marker, s, chunk);
            && (m == [] ==> s'.header == s.header)
            && (m != [] ==>
                  m[|m| - 1] + |marker| + HeaderLength <= |acc| &&
                  s'.header == HeaderAt(acc, m[|m| - 1] + |marker|))
            && (f.Some? ==> f.value.header == s'.header)
  {
    MatchesExact(s.acc + chunk, marker);
  }

  // ------------------------------------------------------------ the header of the last occurrence

  /**
   * A stream holding a 1x1 frame with payload [7] followed by the marker and
   * header of a 2x1 frame whose payload has not arrived yet.
   */
  function ExampleStream(): seq<byte>
  {
    PipelineMarker + [0, 1, 0, 1, 1, 8] + [7] + PipelineMarker + [0, 2, 0, 1, 1, 8]
  }

  lemma {:induction false} NoRoomTail(acc: seq<byte>, marker: seq<byte>, i: nat)
    requires i + |marker| + HeaderLength > |acc|
    ensures MatchesFrom(acc, marker, i) == []
    decreases |acc| - i
  {
    if i < |acc| {
      NoRoomTail(acc, marker, i + 1);
    }
  }

  lemma SkipPosition(acc: seq<byte>, marker: seq<byte>, i: nat)
    requires |marker| >= 1 && i < |acc| && acc[i] != marker[0]
    ensures MatchesFrom(acc, marker, i) == MatchesFrom(acc, marker, i + 1)
  {
    if i + |marker| <= |acc| {
      assert acc[i .. i + |marker|][0] == acc[i];
    }
  }

  /** The example stream holds exactly two complete occurrences, at 0 and 15. */
  lemma ExampleMatches()
    ensures Matches(ExampleStream(), PipelineMarker) == [0, 15]
  {
    var acc := ExampleStream();
    ExampleTail(acc);
    ExampleSkipsHigh(acc);
    ExampleSkipsLow(acc);
    assert acc[0 .. 8] == PipelineMarker;
  }

  lemma ExampleTail(acc: seq<byte>)
    requires acc == ExampleStream()
    ensures MatchesFrom(acc, PipelineMarker, 15) == [15]
  {
    NoRoomTail(acc, PipelineMarker, 16);
    assert acc[15 .. 23] == PipelineMarker;
  }

  lemma ExampleSkipsHigh(acc: seq<byte>)
    requires acc == ExampleStream()
    ensures MatchesFrom(acc, PipelineMarker, 8) == MatchesFrom(acc, PipelineMarker, 15)
  {
    var m := PipelineMarker;
    SkipPosition(acc, m, 14); SkipPosition(acc, m, 13); SkipPosition(acc, m, 12);
    SkipPosition(acc, m, 11); SkipPosition(acc, m, 10); SkipPosition(acc, m, 9);
    SkipPosition(acc, m, 8);
  }

  lemma ExampleSkipsLow(acc: seq<byte>)
    requires acc == ExampleStream()
    ensures MatchesFrom(acc, PipelineMarker, 1) == MatchesFrom(acc, PipelineMarker, 8)
  {
    var m := PipelineMarker;
    SkipPosition(acc, m, 7); SkipPosition(acc, m, 6); SkipPosition(acc, m, 5);
    SkipPosition(acc, m, 4); SkipPosition(acc, m, 3); SkipPosition(acc, m, 2);
    SkipPosition(acc, m, 1);
  }

  /** The fields of the example stream the two reassemblers look at. */
  lemma ExampleFields()
    ensures 23 + HeaderLength <= |ExampleStream()|
    ensures HeaderAt(ExampleStream(), 8) == Header(1, 1, 1, 8)
    ensures HeaderAt(ExampleStream(), 23) == Header(2, 1, 1, 8)
    ensures Grid.Slice(ExampleStream(), 14, 15) == [7]
  {
  }

  /** With exactly two occurrences a and b, the frame given out as written. */
  lemma FeedTwoMatches(marker: seq<byte>, s: Reassembler, chunk: seq<byte>, a: nat, b: nat)
    requires Matches(s.acc + chunk, marker) == [a, b]
    ensures a < b && b + |marker| + HeaderLength <= |s.acc + chunk|
    ensures Feed(marker, s, chunk).1
         == Some(Frame(HeaderAt(s.acc + chunk, b + |marker|), Grid.Slice(s.acc + chunk, a + |marker| + HeaderLength, b)))
    ensures FeedIntended(marker, s, chunk).1
         == Some(Frame(HeaderAt(s.acc + chunk, a + |marker|), Grid.Slice(s.acc + chunk, a + |marker| + HeaderLength, b)))
  {
    var m := Matches(s.acc + chunk, marker);
    MatchesExact(s.acc + chunk, marker);
    assert m[0] == a && m[1] == b;
    assert m[0] < m[1];
  }

  /**
   * As written, the frame of the example stream is labelled with the header
   * of the NEXT frame (2x1) although the six bytes in front of its payload
   * describe a 1x1 frame.
   */
  lemma FeedAttachesLastHeader(st: Reassembler, chunk: seq<byte>)
    requires st.acc == [] && chunk == ExampleStream()
    ensures Feed(PipelineMarker, st, chunk).1 == Some(Frame(Header(2, 1, 1, 8), [7]))
    ensures HeaderAt(chunk, 8) == Header(1, 1, 1, 8)
  {
    assert st.acc + chunk == ExampleStream();
    ExampleMatches();
    ExampleFields();
    FeedOfTwo(PipelineMarker, st, chunk, 0, 15, Header(1, 1, 1, 8), Header(2, 1, 1, 8), [7]);
  }

  /** Both reassemblers' frames for a chunk with two occurrences, from its fields. */
  lemma FeedOfTwo(marker: seq<byte>, s: Reassembler, chunk: seq<byte>, a: nat, b: nat,
                  first: Header, last: Header, payload: seq<byte>)
    requires Matches(s.acc + chunk, marker) == [a, b]
    requires a < b && b + |marker| + HeaderLength <= |s.acc + chunk|
    requires HeaderAt(s.acc + chunk, a + |marker|) == first
    requires HeaderAt(s.acc + chunk, b + |marker|) == last
    requires Grid.Slice(s.acc + chunk, a + |marker| + HeaderLength, b) == payload
    ensures Feed(marker, s, chunk).1 == Some(Frame(last, payload))
    ensures FeedIntended(marker, s, chunk).1 == Some(Frame(first, payload))
  {
    FeedTwoMatches(marker, s, chunk, a, b);
  }

  /** The corrected reassembler: a frame carries the header that opens its own payload. */
  function FeedIntended(marker: seq<byte>, s: Reassembler, chunk: seq<byte>): (Reassembler, Option<Frame>)
  {
    var acc := s.acc + chunk;
    var m := Matches(acc, marker);
    MatchesExact(acc, marker);
    var header := LastHeader(acc, marker, m, s.header);
    if |m| > 1 then
      (Reassembler(acc[m[1]..], header),
       Some(Frame(HeaderAt(acc, m[0] + |marker|), Grid.Slice(acc, m[0] + |marker| + HeaderLength, m[1]))))
    else
      (Reassembler(acc, header), None)
  }

  /**
   * The corrected reassembler keeps the same state and payloads as the
   * original, and every frame's header is parsed from the six bytes that
   * directly follow a complete marker and directly precede the payload.
   */
  lemma FeedIntendedHeader(marker: seq<byte>, s: Reassembler, chunk: seq<byte>)
    ensures FeedIntended(marker, s, chunk).0 == Feed(marker, s, chunk).0
    ensures FeedIntended(marker, s, chunk).1.Some? == Feed(marker, s, chunk).1.Some?
    ensures FeedIntended(marker, s, chunk).1.Some? ==>
      var acc := s.acc + chunk;
      var p := Matches(acc, marker)[0] + |marker|;
      && MarkerAt(acc, marker, p - |marker|)
      && FeedIntended(marker, s, chunk).1.value.payload == Feed(marker, s, chunk).1.value.payload
      && FeedIntended(marker, s, chunk).1.value.header == HeaderAt(acc, p)
  {
    MatchesExact(s.acc + chunk, marker);
  }

  /** On the example stream the corrected reassembler labels the frame 1x1. */
  lemma FeedIntendedExample(st: Reassembler, chunk: seq<byte>)
    requires st.acc == [] && chunk == ExampleStream()
    ensures FeedIntended(PipelineMarker, st, chunk).1 == Some(Frame(Header(1, 1, 1, 8), [7]))
  {
    assert st.acc + chunk == ExampleStream();
    ExampleMatches();
    ExampleFields();
    FeedOfTwo(PipelineMarker, st, chunk, 0, 15, Header(1, 1, 1, 8), Header(2, 1, 1, 8), [7]);
  }

  // ------------------------------------------------------------ the class

  /** The reassembler object: the marker, the header fields the scan overwrites, and the accumulator. */
  class BinaryDecoder {
    const marker: seq<byte>
    var width: nat
    var height: nat
    var channels: nat
    var dataWidth: nat
    var acc: seq<byte>

    function State(): Reassembler
      reads this
    {
      Reassembler(acc, Header(width, height, channels, dataWidth))
    }

    constructor (marker: seq<byte>)
      requires |marker| >= 1
      ensures this.marker == marker
      ensures State() == Reassembler([], Header(0, 0, 0, 0))
    {
      this.marker := marker;
      width, height, channels, dataWidth := 0, 0, 0, 0;
      acc := [];
    }

    /**
     * `find_magic_bytes`: walk the candidate positions in increasing order,
     * stop at the first one without room for marker and header, and record
     * every full match, overwriting the header fields each time.
     */
    method FindMagicBytes(buf: seq<byte>) returns (indices: seq<nat>)
      requires |marker| >= 1
      modifies this`width, this`height, this`channels, this`dataWidth
      ensures indices == Matches(buf, marker)
      ensures forall k :: 0 <= k < |indices| ==> MarkerAt(buf, marker, indices[k])
      ensures Header(width, height, channels, dataWidth)
           == LastHeader(buf, marker, indices, old(Header(width, height, channels, dataWidth)))
    {
      ghost var before := Header(width, height, channels, dataWidth);
      var candidates := CandidatesFrom(buf, marker[0], 0);
      indices := [];
      var k := 0;
      while k < |candidates|
        invariant 0 <= k <= |candidates|
        invariant indices == KeepMarkers(buf, marker, candidates[..k])
        invariant forall j :: 0 <= j < |indices| ==> MarkerAt(buf, marker, indices[j])
        invariant Header(width, height, channels, dataWidth) == LastHeader(buf, marker, indices, before)
      {
        var i := candidates[k];
        if i + |marker| + HeaderLength > |buf| {
          NoRoomAfter(buf, marker, k);
          break;
        }
        KeepMarkersSnoc(buf, marker, candidates, k);
        if buf[i .. i + |marker|] == marker {
          LastHeaderSnoc(buf, marker, indices, i, before);
          var h := HeaderAt(buf, i + |marker|);
          width, height, channels, dataWidth := h.width, h.height, h.channels, h.dataWidth;
          indices := indices + [i];
        }
        k := k + 1;
      }
      assert k == |candidates| ==> candidates[..k] == candidates;
      assert indices == KeepMarkers(buf, marker, candidates);
      CandidatesSuffice(buf, marker, 0);
    }

    /** One iteration of `run`: take a chunk, scan, emit at most one frame and trim. */
    method Step(chunk: seq<byte>) returns (frame: Option<Frame>)
      requires |marker| >= 1
      modifies this
      ensures (State(), frame) == Feed(marker, old(State()), chunk)
    {
      acc := acc + chunk;
      var m := FindMagicBytes(acc);
      MatchesExact(acc, marker);
      if |m| > 1 {
        frame := Some(Frame(Header(width, height, channels, dataWidth),
                            Grid.Slice(acc, m[0] + |marker| + HeaderLength, m[1])));
        acc := acc[m[1]..];
      } else {
        frame := None;
      }
    }
  }
}
