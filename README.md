# Serial camera stream receiver, command encoders, table generator and PPM tools

This project models, in Dafny, the byte-level and integer-level core of the
FPGA camera tooling.

- **Frame reassembler** (`BinaryDecoder`): it grows an accumulator chunk by
  chunk. It scans for the `BIVFRAME` marker, which is followed by a 6-byte
  big-endian header: width, height, channel count and sample bit width. It
  emits the payload between the first two markers and then trims the
  accumulator.
- **Stream decoder** (`StreamDecoder`): for each frame it does the following.
  - It groups payload bytes into samples (`combine_bytes`).
  - It de-interleaves the channels with stride `channels` and reshapes each
    channel row-major.
  - It queues a cropped viewport of each channel for display.
  - While a capture is armed, it also queues the full image for the recorder.
  - It runs the recorder: arming from a capture request, a `remaining`
    count-down, capture file names built from a never-reset `unique_id`, and
    pixels reduced to 8 bits.
  - If any step of the frame handling fails, the frame is reported malformed.
    Whatever was queued before the failure stays queued. That includes a
    capture step that meets an image without pixels (a zero width or
    height): writing it raises after `remaining` has been counted down and
    that channel's image popped. The unique id then stays, and the later
    channels keep their images queued.
- **Data-rate counter** (`DataRateStats`): samples kept in a sliding window
  over a double-ended queue, plus a running total.
- **Command encoders** of the dialogs: the little-endian data/address records
  for a raw hex command, the region of interest, the 3×3 homography, the DfDD
  parameters, and the capture dialog's fixed frame count.
- **Table generator** for the convolution hardware:
  - the power-of-two test;
  - two's-complement binary strings;
  - the `opt_mult_str` multiplier encoding;
  - the `OPTIMAL_MULT_STR` listing;
  - the `OPTIMAL_ADD` adder-tree pruning table.
- **Plain PPM (`P3`, Netpbm ppm(5)) writer and reader**:
  - the grey writer of the PNG converter, with its choice of maxval;
  - the reader of the green-channel extractor: line tokenizer, header parser,
    pixel reader and the row-major reshape;
  - a write-then-read round trip.

Queues are sequences and time is an integer parameter. Files, devices, threads
and the GUI are not modelled; the section "Left out" lists each.

Modules, one per component:

- helpers: `Wrappers` (Option, Result), `Bytes` (bytes, little- and
  big-endian), `Text` (decimal and hex text, Python `int()` on ASCII text,
  whitespace words, split and join), `Grid` (Python slicing, strided slices,
  reshape, crop);
- the stream receiver: `FrameReassembly`, `StreamDemux`, `Recording`,
  `StreamDecoding`, `RateStats`;
- the encoders: `Commands`, `MultiplierEncoding`, `TableGenerator`;
- the PPM tools: `PpmWriter`, `PpmReader`, `PpmRoundTrip`.

The stateful parts of the source are modelled as classes and methods:

- `BinaryDecoder.find_magic_bytes` overwrites the header fields in a loop;
- `BinaryDecoder.run` grows and trims the accumulator;
- `StreamDecoder` updates its recorder fields and the per-channel queues;
- `DataRateStats` appends to and pops from its deque;
- the homography encoder accumulates its bytes in a loop;
- the generator fills `OPTIMAL_ADD` in place and builds `OPTIMAL_MULT_STR` by
  appending;
- `write_ppm_p3` appends its output line by line;
- `read_green_channel_uint16` fills a preallocated array.

Each method is proved equal to a pure specification function, and the
properties are lemmas about those functions.

In these places the code does something other than what its names and comments suggest; the model follows the code:

- A frame carries the header of the *last* marker found in the scan, not the
  header after the marker that opens the payload.
- `combine_bytes` is called with the bit width as its shift unit, rather than
  combining most-significant byte first with a shift of 8.
- The capture sequence number (`unique_id`) is never reset between captures,
  rather than starting at 0 for each capture.
- Old rate samples are evicted when bytes are registered, not when the
  results are read.

The section "Findings" covers the first two. Its third row follows from the second: the 16-bit pixels saved as 0 are a consequence of the shift unit.

## Model

Paths are relative to the repository root.

| member | source | states |
|---|---|---|
| FrameReassembly.HeaderAtBigEndian | tools/serialcam_ft232h/serialcam_stream_utils_ft232h.py:155-162 | The header after a marker has these fields: width and height are the big-endian value of their byte pair (`msb*256+lsb`, below 65536); channels and data width are one byte each. |
| FrameReassembly.Matches | tools/serialcam_ft232h/serialcam_stream_utils_ft232h.py:146-164 | The positions the scan keeps: every position where the whole marker matches and the 6 header bytes follow, in increasing order. |
| FrameReassembly.MatchesExact | tools/serialcam_ft232h/serialcam_stream_utils_ft232h.py:146-164 | The marker positions are strictly increasing. Each one holds the whole marker with room for the 6 header bytes, and every position that does is listed. |
| FrameReassembly.CandidatesExact | tools/serialcam_ft232h/serialcam_stream_utils_ft232h.py:149 | The candidates are exactly the positions holding the marker's first byte, in increasing order. |
| FrameReassembly.CandidatesSuffice | tools/serialcam_ft232h/serialcam_stream_utils_ft232h.py:149-163 | Keeping the candidates where the whole marker matches (with room for the header) gives exactly the marker positions. |
| FrameReassembly.NoRoomAfter | tools/serialcam_ft232h/serialcam_stream_utils_ft232h.py:151-153 | Once a candidate lacks room for the marker and header, no later candidate is kept, so the `break` loses no match. |
| FrameReassembly.LastHeaderSnoc | tools/serialcam_ft232h/serialcam_stream_utils_ft232h.py:154-163 | Every match overwrites the header fields, so the stored header is the one after the last match. |
| FrameReassembly.Feed | tools/serialcam_ft232h/serialcam_stream_utils_ft232h.py:133-164 | One run-loop iteration as written: append the chunk and scan it. With two or more markers, emit the payload between the first header and the second marker, labelled with the last match's header, and keep the accumulator from the second marker on. |
| FrameReassembly.FeedEmitsIff | tools/serialcam_ft232h/serialcam_stream_utils_ft232h.py:133-144 | One chunk emits a frame iff the accumulator plus the chunk holds at least two markers, and never more than one frame. Otherwise the accumulator is the old one followed by the chunk. |
| FrameReassembly.FeedFrame | tools/serialcam_ft232h/serialcam_stream_utils_ft232h.py:139-144 | The payload is `acc[m0+len(marker)+6 : m1]` (empty when that start lies beyond `m1`). The new accumulator is `acc[m1:]`, which begins with the marker. |
| FrameReassembly.FeedHeader | tools/serialcam_ft232h/serialcam_stream_utils_ft232h.py:142 | Without a match the header is kept. Otherwise it is the header after the last match, and an emitted frame carries it. |
| FrameReassembly.FeedTwoMatches | tools/serialcam_ft232h/serialcam_stream_utils_ft232h.py:139-144 | With exactly two markers at a < b, the frame as written carries the header after b; the corrected version carries the header after a. Both carry the same payload. |
| FrameReassembly.ExampleMatches | tools/serialcam_ft232h/serialcam_stream_ft232h.py:27 | A two-frame example stream with the `BIVFRAME` marker has its markers at positions 0 and 15. |
| FrameReassembly.FeedAttachesLastHeader | tools/serialcam_ft232h/serialcam_stream_utils_ft232h.py:159-162 | In the example, the first frame (payload `[7]`, its own header 1×1) is emitted with the second frame's header 2×1. |
| FrameReassembly.FeedIntended | tools/serialcam_ft232h/serialcam_stream_utils_ft232h.py:139-144 | The corrected iteration: the same as the as-written step, but the frame is labelled with the header after the first marker. |
| FrameReassembly.FeedIntendedHeader | tools/serialcam_ft232h/serialcam_stream_utils_ft232h.py:139-144 | The corrected step keeps the same accumulator, emission and payload, and takes the header after the first marker. |
| FrameReassembly.FeedIntendedExample | tools/serialcam_ft232h/serialcam_stream_utils_ft232h.py:139-144 | On the example, the corrected step emits payload `[7]` with its own header 1×1. |
| FrameReassembly.BinaryDecoder.constructor | tools/serialcam_ft232h/serialcam_stream_utils_ft232h.py:111-127 | A new decoder has an empty accumulator and all header fields 0. |
| FrameReassembly.BinaryDecoder.FindMagicBytes | tools/serialcam_ft232h/serialcam_stream_utils_ft232h.py:146-164 | The loop over candidates returns exactly the marker positions. It leaves in the header fields what the last match wrote, or the old values when there is no match. |
| FrameReassembly.BinaryDecoder.Step | tools/serialcam_ft232h/serialcam_stream_utils_ft232h.py:133-144 | One iteration of the run loop (append the chunk, scan, emit at most one frame, trim) gives exactly the new state and frame of the pure step. |
| StreamDemux.RowValueBigEndian | tools/serialcam_ft232h/serialcam_stream_utils_ft232h.py:23-26 | `combine_bytes` with shift 8 is the big-endian value of the row. |
| StreamDemux.RowValueSingle | tools/serialcam_ft232h/serialcam_stream_utils_ft232h.py:23-26 | A one-byte row combines to that byte, whatever the shift. |
| StreamDemux.SamplesAt | tools/serialcam_ft232h/serialcam_stream_utils_ft232h.py:213-215 | Sample i combines bytes `i*k .. i*k+k` of the payload. |
| StreamDemux.CombineFrame | tools/serialcam_ft232h/serialcam_stream_utils_ft232h.py:213-215 | The grouping succeeds iff the data width is at least 8 and the payload length is a multiple of `data_width // 8`. The result then holds `len // (data_width // 8)` samples. |
| StreamDemux.CombineFrameAt | tools/serialcam_ft232h/serialcam_stream_utils_ft232h.py:213-215 | Each sample is its byte group combined with the data width itself as shift unit (as written). |
| StreamDemux.CombineShiftExample | tools/serialcam_ft232h/serialcam_stream_utils_ft232h.py:25 | At 16 bits, the bytes `[1, 2]` combine to 65538. Their big-endian value is 258. |
| StreamDemux.CombineFrameIntended | tools/serialcam_ft232h/serialcam_stream_utils_ft232h.py:23-26 | The corrected combine: groups of `data_width//8` bytes, each combined most-significant byte first with an 8-bit shift. |
| StreamDemux.CombineFrameIntendedAt | tools/serialcam_ft232h/serialcam_stream_utils_ft232h.py:23-26 | The corrected combine gives the big-endian value of each byte group. |
| StreamDemux.CombineFrameAgreesOnBytes | tools/serialcam_ft232h/serialcam_stream_utils_ft232h.py:213-215 | For 8-bit samples, the as-written and corrected combines agree. |
| StreamDemux.ChannelImage | tools/serialcam_ft232h/serialcam_stream_utils_ft232h.py:219-221 | Channel c: the strided slice `samples[c::channels]` reshaped to height × width, or nothing if the size does not match. |
| StreamDemux.ChannelImageAt | tools/serialcam_ft232h/serialcam_stream_utils_ft232h.py:217-221 | Channel c's image element `(r, col)` is `sample[(r*width + col)*channels + c]`. |
| StreamDemux.AllChannelsFit | tools/serialcam_ft232h/serialcam_stream_utils_ft232h.py:219-221 | Every channel's strided slice reshapes to height × width iff there are exactly `channels*height*width` samples. |
| StreamDemux.Viewport | tools/serialcam_ft232h/serialcam_stream_utils_ft232h.py:227-234 | The displayed crop: 400 rows and 480 columns from (15, 5), or from (0, 0) in fast mode, clipped to the image. |
| StreamDemux.ViewportAt | tools/serialcam_ft232h/serialcam_stream_utils_ft232h.py:227-234 | A displayed pixel `(i, j)` is the image pixel at the origin plus `(i, j)`. The origin is (15, 5), or (0, 0) in fast mode, and the crop is clipped to the image. |
| StreamDemux.ViewportSize | tools/serialcam_ft232h/serialcam_stream_utils_ft232h.py:227-234 | The viewport of a large enough image is exactly 400 × 480. |
| StreamDemux.PushFrom | tools/serialcam_ft232h/serialcam_stream_utils_ft232h.py:217-241 | The channel loop from channel c: reshape, put the viewport on the display queue, and put the full image on the recorder queue when recording. The first failure stops the loop with what was pushed so far. |
| StreamDemux.PushFromOk | tools/serialcam_ft232h/serialcam_stream_utils_ft232h.py:217-241 | The channel loop runs to the end iff no channel fails, and the number of queues stays the same. |
| StreamDemux.PushFromChannelQueue | tools/serialcam_ft232h/serialcam_stream_utils_ft232h.py:217-234 | A display queue gains its channel's viewport exactly when its channel comes before the first failing channel, or is that channel and failed only for lack of a recorder queue. |
| StreamDemux.PushFromRecorderQueue | tools/serialcam_ft232h/serialcam_stream_utils_ft232h.py:236-241 | While recording, a recorder queue gains its channel's full image exactly for the channels before the first failing one. |
| StreamDemux.ChannelsOkIff | tools/serialcam_ft232h/serialcam_stream_utils_ft232h.py:213-241 | Every channel goes through iff there are `channels*height*width` samples and there is a display queue (and, while recording, a recorder queue) for every channel. |
| StreamDemux.PushFramesIff | tools/serialcam_ft232h/serialcam_stream_utils_ft232h.py:211-241 | The whole channel loop of a frame completes iff the frame has the right size and the queues it needs. |
| StreamDecoding.PushedReady | tools/serialcam_ft232h/serialcam_stream_utils_ft232h.py:238-245 | After a complete loop while recording, every channel has an image to pop in the capture step. |
| StreamDecoding.HandleFrame | tools/serialcam_ft232h/serialcam_stream_utils_ft232h.py:194-261 | One decoder iteration: set up a pending request, combine, run the channel loop, then take one capture step if a capture is armed. It returns the new state, the malformed flag and the images saved. A capture step that stops early makes the frame malformed. |
| StreamDecoding.HandleFrameMalformed | tools/serialcam_ft232h/serialcam_stream_utils_ft232h.py:211-261 | A frame is reported malformed iff one of these holds: it does not combine; its sample count is not `channels*height*width`; a channel lacks a display queue; or, while a capture is armed, a channel lacks a recorder queue, or some channel's front recorder image (after this frame's push) has no pixels, so its write raises. |
| StreamDecoding.HandleFrameRecorder | tools/serialcam_ft232h/serialcam_stream_utils_ft232h.py:205-245 | The recorder fields are first set up from the request. A capture step runs exactly when the frame goes through while armed. It counts `remaining` down by one, and it advances `unique_id` by one exactly when the frame is not malformed, which is when all channels are saved. Without a step nothing is saved. `unique_id` only grows, by one per completed step. |
| StreamDecoding.HandleFrameDisplay | tools/serialcam_ft232h/serialcam_stream_utils_ft232h.py:227-234 | A frame that goes through appends its channel's viewport to each display queue that has a channel and leaves the others alone. A frame that does not combine changes no queue. |
| StreamDecoding.HandleFrameRecorderQueues | tools/serialcam_ft232h/serialcam_stream_utils_ft232h.py:236-241 | The recorder queues keep their number. Without an armed capture they are untouched. |
| StreamDecoding.HandleFrameRecorderQueue | tools/serialcam_ft232h/serialcam_stream_utils_ft232h.py:238-245 | While armed, a frame that goes through pushes one full image onto channel c's recorder queue. The step pops channel c's front when it reaches channel c: for every channel up to and including the one whose write fails. A complete step pops every channel, so each queue keeps its length. |
| StreamDecoding.HandleFrameSaved | tools/serialcam_ft232h/serialcam_stream_utils_ft232h.py:297-312 | An image saved for channel c is the front of its recorder queue, which has pixels, reduced to 8 bits, named with the decremented `remaining` and the current id. |
| StreamDecoding.ZeroSizeCaptureFails | tools/serialcam_ft232h/serialcam_stream_utils_ft232h.py:244-261 | While armed, a frame with a zero width or height and empty recorder queues is reported malformed and saves nothing. `remaining` is counted down but the unique id stays. Channel 0's image is popped and the other channels keep this frame's image queued. |
| StreamDecoding.SaveChannels | tools/serialcam_ft232h/serialcam_stream_utils_ft232h.py:297-315 | The channel loop of the capture step, with `remaining` already counted down, gives exactly the pure step's queues, saved images and success flag. |
| StreamDecoding.StreamDecoder.constructor | tools/serialcam_ft232h/serialcam_stream_utils_ft232h.py:177-189 | A new decoder has the given queues and mode, `remaining` 0, no several-frames flag, empty directory and base name, and id 0. |
| StreamDecoding.StreamDecoder.SetupRecordRequest | tools/serialcam_ft232h/serialcam_stream_utils_ft232h.py:263-285 | The recorder fields become the set-up fields of the request; the queues are unchanged. |
| StreamDecoding.StreamDecoder.StepRecordRequest | tools/serialcam_ft232h/serialcam_stream_utils_ft232h.py:287-316 | Counts `remaining` down, then pops and saves channel by channel until an image without pixels stops it. It increments `unique_id` only if every channel was saved, and it leaves the display queues alone. All of this is exactly the pure capture step. |
| StreamDecoding.StreamDecoder.PushChannels | tools/serialcam_ft232h/serialcam_stream_utils_ft232h.py:217-240 | The channel loop leaves the display and recorder queues, and reports success, exactly as the pure channel push does. Each channel lands in its display queue, and while a capture is armed in its recorder queue too. The loop stops at the first channel without an image or a queue. |
| StreamDecoding.StreamDecoder.ProcessFrame | tools/serialcam_ft232h/serialcam_stream_utils_ft232h.py:194-261 | One iteration of the run loop (request, channel loop, capture step, caught error, including a failed image write) gives exactly the pure frame handler's state, malformed flag and saved images. |
| Recording.SplitPath | tools/serialcam_ft232h/serialcam_stream_utils_ft232h.py:273-283 | `setup_record_request`'s split of the path: `("", "default")` for an empty path, `(path, "default")` without `/`, else the text before and after the last `/`. |
| Recording.SplitPathParts | tools/serialcam_ft232h/serialcam_stream_utils_ft232h.py:273-283 | A path without `/` (including `""`) gives the directory = the path and base `"default"`. Otherwise the directory, a `/` and the base rebuild the path, and the base holds no `/`. |
| Recording.Setup | tools/serialcam_ft232h/serialcam_stream_utils_ft232h.py:263-284 | A request sets `remaining = frames` and `several = frames >= 2`, splits the path, and keeps the id. No request changes nothing. |
| Recording.CaptureName | tools/serialcam_ft232h/serialcam_stream_utils_ft232h.py:306 | A saved file name: `<dir>/<base>_<c>_<w>_<h>[_<remaining>]_<id>.png`, with the remaining count only in a capture of several frames. |
| Recording.CaptureNameFields | tools/serialcam_ft232h/serialcam_stream_utils_ft232h.py:306 | When the directory and base hold no `_`, a capture name splits on `_` back into its fields: `<dir>/<base>`, channel, width, height, [remaining,] and `<id>.png`. |
| Recording.CaptureNamesDistinct | tools/serialcam_ft232h/serialcam_stream_utils_ft232h.py:312 | Two names for the same directory, base, channel and size are equal only when their ids (and remaining counts) are, so a never-reset id keeps names apart. |
| Recording.ReducePixel | tools/serialcam_ft232h/serialcam_stream_utils_ft232h.py:305 | `(v >> (data_width-8)).astype(uint8)`: shift right, then keep the value mod 256. |
| Recording.ReducePixelTopByte | tools/serialcam_ft232h/serialcam_stream_utils_ft232h.py:305 | A sample that fits its data width reduces (shift by `data_width-8`, then the uint8 cast) to its top 8 bits. |
| Recording.ReduceImage | tools/serialcam_ft232h/serialcam_stream_utils_ft232h.py:311 | The reduced image has the same shape, and each pixel is `(v >> (data_width-8)) mod 256`. |
| Recording.SixteenBitPixelsAsWritten | tools/serialcam_ft232h/serialcam_stream_utils_ft232h.py:305 | With the combine as written, every recorded pixel of a 16-bit frame is 0. |
| Recording.SixteenBitPixelsIntended | tools/serialcam_ft232h/serialcam_stream_utils_ft232h.py:305 | With the corrected combine, a 16-bit sample reduces to its high byte. |
| Recording.RecordStep | tools/serialcam_ft232h/serialcam_stream_utils_ft232h.py:287-316 | One capture step counts `remaining` down and walks the channels in order. It pops each channel's front image and saves it under its name, stopping at the first image without pixels, which is popped but not saved. It reports success, and advances `unique_id` by one, iff every front image has pixels. Queues past the stop are left alone. |
| Recording.FirstUnwritable | tools/serialcam_ft232h/serialcam_stream_utils_ft232h.py:297-312 | The index of the first channel from c on whose front image has no pixels, or `channels`. Every channel before it has pixels. |
| RateStats.Evict | tools/serialcam_ft232h/serialcam_stream_utils_ft232h.py:336-337 | The eviction loop leaves a back part of the queue. Every dropped sample is older than the bound, and the new front is not. |
| RateStats.EvictIsSuffix | tools/serialcam_ft232h/serialcam_stream_utils_ft232h.py:336-337 | What eviction leaves is a suffix of its input, so order is kept. |
| RateStats.EvictKeepsNewest | tools/serialcam_ft232h/serialcam_stream_utils_ft232h.py:331-337 | With a non-negative window, the sample just registered is never evicted. |
| RateStats.EvictSorted | tools/serialcam_ft232h/serialcam_stream_utils_ft232h.py:336-337 | For samples in time order, every kept sample is at or after the bound. |
| RateStats.DataRateStats.constructor | tools/serialcam_ft232h/serialcam_stream_utils_ft232h.py:319-325 | A new counter has the given window, an empty queue and total 0. |
| RateStats.DataRateStats.RegisterBytesRead | tools/serialcam_ft232h/serialcam_stream_utils_ft232h.py:327-337 | Appends the sample, adds to the total, and evicts from the front. It keeps the invariant: the total is the sum of everything ever registered, and the queue is the newest part of it. |
| RateStats.DataRateStats.GetResults | tools/serialcam_ft232h/serialcam_stream_utils_ft232h.py:339-357 | Reports the bytes still in the queue, the running total, and the effective window (the front sample's age, or the configured window). The rate is divided out iff that window is positive. |
| RateStats.WindowWithinTotal | tools/serialcam_ft232h/serialcam_stream_utils_ft232h.py:333-345 | The bytes in the window never exceed the running total. |
| Commands.ToBytes | tools/serialcam_ft232h/serialcam_ft232h_dialogs.py:138-139 | `int.to_bytes(k, 'little')` succeeds iff `0 <= n < 256^k`, and then gives the little-endian bytes. |
| Commands.RecordRoundTrip | tools/serialcam_ft232h/serialcam_ft232h_dialogs.py:147 | A data/address record is 6 bytes and decodes back to its data and address. |
| Commands.CommandWrite | tools/serialcam_ft232h/serialcam_ft232h_dialogs.py:136-147 | The raw command: it parses the address as hex and takes its 2 little-endian bytes, then parses the data as hex and takes its 4 bytes. The packet is the data bytes followed by the address bytes. Text that is not hex is rejected, and a value too large raises `OverflowError`. |
| Commands.CommandWriteOutcome | tools/serialcam_ft232h/serialcam_ft232h_dialogs.py:136-147 | A packet results iff both texts parse as hex and fit (address below 2^16, data below 2^32); it decodes to that data and address. Non-hex text gives `None` as long as the conversions before it succeeded. An out-of-range value raises the uncaught `OverflowError`. |
| Commands.CommandWriteOfHex | tools/serialcam_ft232h/serialcam_ft232h_dialogs.py:136-147 | The hex texts of an address and data that fit give exactly their record. |
| Commands.RoiCommand | tools/serialcam_ft232h/serialcam_ft232h_dialogs.py:267-284 | The region command: decimal x and y, rejected if either does not parse or is negative. Otherwise y with `start_addr` and x with `start_addr+1`, each value as 4 little-endian bytes and each address as 2. |
| Commands.RoiCommandRejected | tools/serialcam_ft232h/serialcam_ft232h_dialogs.py:267-280 | The ROI command gives `None` iff x or y is not an integer or is negative. |
| Commands.RoiCommandPacket | tools/serialcam_ft232h/serialcam_ft232h_dialogs.py:267-284 | A packet results iff x and y are integers in `0 .. 2^32-1` and `start_addr+1` fits 2 bytes. |
| Commands.RoiCommandBytes | tools/serialcam_ft232h/serialcam_ft232h_dialogs.py:273-284 | The packet is the y record at `start_addr` followed by the x record at `start_addr+1`. |
| Commands.RoiCommandRecords | tools/serialcam_ft232h/serialcam_ft232h_dialogs.py:282-284 | The 12 bytes decode to `(y, start_addr)` and `(x, start_addr+1)`. |
| Commands.RoiButtonPacket | tools/serialcam_ft232h/serialcam_ft232h_dialogs.py:253-284 | At either button's start address (0x80 before the transform, 0x82 after it), the command is a packet iff x and y parse as integers in `0 .. 2^32-1`. The address never overflows: an `OverflowError` results iff both parse, neither is negative and one is 2^32 or more. |
| Commands.FixedPointFieldValue | tools/serialcam_ft232h/serialcam_ft232h_dialogs.py:208-209 | The 4-byte field is the scaled integer mod 2^32, little-endian, so a value in the signed 32-bit range reads back as itself in two's complement. |
| Commands.RowMajorIndex | tools/serialcam_ft232h/serialcam_ft232h_dialogs.py:227-228 | Entry k of the row-major walk of a 3×3 matrix is `m[k/3][k%3]`. |
| Commands.EntryRecordAt | tools/serialcam_ft232h/serialcam_ft232h_dialogs.py:227-230 | Record k of the accumulated bytes is the entry's fixed-point field and the address `start_addr+k`. |
| Commands.Homography | tools/serialcam_ft232h/serialcam_ft232h_dialogs.py:211-232 | The homography command on the rounded, scaled entries: rejected unless the matrix is 3×3. Otherwise nine records in row-major order at consecutive addresses from `start_addr`, or `OverflowError` when an address passes `0xffff`. |
| Commands.HomographyPacket | tools/serialcam_ft232h/serialcam_ft232h_dialogs.py:211-232 | A homography packet is 54 bytes. Record k decodes to `(m[k/3][k%3] mod 2^32, start_addr+k)`. |
| Commands.HomographyOutcome | tools/serialcam_ft232h/serialcam_ft232h_dialogs.py:215-225 | A non-3×3 matrix gives `None`. An address past `0xffff` raises `OverflowError`. At the homography address the command always gives a packet. |
| Commands.HomographyCommand | tools/serialcam_ft232h/serialcam_ft232h_dialogs.py:211-232 | The accumulating loop over rows and entries gives exactly the pure homography command. |
| Commands.DfddCommand | tools/serialcam_ft232h/serialcam_ft232h_dialogs.py:349-361 | The DfDD command: an absent (unparsed) value is rejected. Otherwise the value mod 2^32 as 4 little-endian bytes followed by the 2-byte address, or `OverflowError` for an address past `0xffff`. |
| Commands.DfddCommandRecord | tools/serialcam_ft232h/serialcam_ft232h_dialogs.py:349-361 | At the fixed addresses 0x01, 0x02 and 0x50, a parsed value gives the 6-byte record `(value mod 2^32, address)`, and an unparsed one gives `None`. |
| Commands.CaptureValues | tools/serialcam_ft232h/serialcam_ft232h_dialogs.py:56-64 | The capture dialog's request: the frame count is the constant 1, and the path is the text field. |
| Commands.CaptureDialogArmsOneFrame | tools/serialcam_ft232h/serialcam_ft232h_dialogs.py:56-64 | Whatever the spin box holds, the dialog's request arms exactly one frame, without the several-frames naming. |
| MultiplierEncoding.Log2 | tools/optimal_convolution_floating_point_generator.py:84 | `int(log2(n))` for n ≥ 1 is the k with `2^k <= n < 2^(k+1)`. |
| MultiplierEncoding.Log2OfPow2 | tools/optimal_convolution_floating_point_generator.py:84 | The base-2 logarithm of `2^k` is k. |
| MultiplierEncoding.IsPowerOfTwo | tools/optimal_convolution_floating_point_generator.py:49-55 | `is_power_of_two` on an integer: `n > 0 and n & (n-1) == 0`. |
| MultiplierEncoding.PowerOfTwoIff | tools/optimal_convolution_floating_point_generator.py:49-55 | `n > 0 and n & (n-1) == 0` holds iff `n >= 1` and `n` equals 2 to its floor logarithm. |
| MultiplierEncoding.PowerOfTwoExactly | tools/optimal_convolution_floating_point_generator.py:49-55 | The integer test holds exactly for the powers of two. |
| MultiplierEncoding.BinValueOfBin | tools/optimal_convolution_floating_point_generator.py:61 | The binary digits of `format(n, 'b')` read back as n. |
| MultiplierEncoding.BinLength | tools/optimal_convolution_floating_point_generator.py:61 | A value below `2^w` needs at most w binary digits. |
| MultiplierEncoding.PadZerosValue | tools/optimal_convolution_floating_point_generator.py:61 | Zero padding to a width keeps the string binary and keeps its value. |
| MultiplierEncoding.IntToSignedBin | tools/optimal_convolution_floating_point_generator.py:59-65 | `int_to_signed_bin(n, width)`: `format(n, '0{width}b')` for `n >= 0`, and that of `2^width + n` otherwise. |
| MultiplierEncoding.SignedBinTwosComplement | tools/optimal_convolution_floating_point_generator.py:59-65 | For `-2^w <= n < 2^w`, `int_to_signed_bin(n, w)` is exactly w binary digits whose value is `n mod 2^w`. |
| MultiplierEncoding.SignedBinSign | tools/optimal_convolution_floating_point_generator.py:59-65 | The result starts with `-` exactly when `n < -2^w`, that is, outside the two's-complement range. |
| MultiplierEncoding.OptMultFields | tools/optimal_convolution_floating_point_generator.py:67-89 | The field pair of `opt_mult_str`: (0,0) for 0, (1,log2) or (2,log2) for a positive or negative power of two, and (EXP_MAX, EXP_MAX) otherwise. |
| MultiplierEncoding.OptMultFieldsMeaning | tools/optimal_convolution_floating_point_generator.py:75-89 | The fields are (0,0) for 0, (1,k) for `2^k`, (2,k) for `-2^k`, and (EXP_MAX, EXP_MAX) for anything else. |
| MultiplierEncoding.OptMultFieldsRoundTrip | tools/optimal_convolution_floating_point_generator.py:1-10 | Decoding the fields by the documented table gives back the kernel value exactly when it is 0 or ±2^k, and "no optimization" otherwise. |
| MultiplierEncoding.OptMultStr | tools/optimal_convolution_floating_point_generator.py:67-93 | `opt_mult_str`: the width prefix `2*EXP_WIDTH'b`, then the two fields through `int_to_signed_bin`. |
| MultiplierEncoding.OptMultStrLayout | tools/optimal_convolution_floating_point_generator.py:91-93 | The string is `str(2*EXP_WIDTH) + "'b"`, then `EXP_WIDTH` digits of msb, then `EXP_WIDTH` digits of lsb, each `mod 2^EXP_WIDTH`. |
| MultiplierEncoding.OptMultStrNoComma | tools/optimal_convolution_floating_point_generator.py:91-93 | An encoded entry holds no comma, so the comma-separated listing splits back into its entries. |
| TableGenerator.FlattenRowMajor | tools/optimal_convolution_floating_point_generator.py:108 | The flattened rectangular kernel holds `kernel[r][c]` at `r*width + c`. |
| TableGenerator.RectangularKernelFits | tools/optimal_convolution_floating_point_generator.py:99-110 | A rectangular kernel flattens to `LINEAR_WIDTH = width*height` entries. |
| TableGenerator.Clog2Bounds | tools/optimal_convolution_floating_point_generator.py:111 | `2^clog2(n)` is at least n and is the least such power of two. |
| TableGenerator.Clog2Least | tools/optimal_convolution_floating_point_generator.py:111 | Any power of two `>= n` has an exponent at least `clog2(n)`. |
| TableGenerator.Clog2Pow2 | tools/optimal_convolution_floating_point_generator.py:117 | `OPTIMAL_ADD_LEVELS`, the clog2 of a power of two, is its exponent. |
| TableGenerator.AddSpec | tools/optimal_convolution_floating_point_generator.py:122-147 | The intended `OPTIMAL_ADD[l][opt]`: 0 outside the level's bound; at level 0, 0 for a zero coefficient; above, 0 when both children are 0; else 1. |
| TableGenerator.AddSpecMeaning | tools/optimal_convolution_floating_point_generator.py:141-147 | A node of the pruned adder tree is 1 iff a nonzero kernel entry lies in its leaf range `[opt*2^l, (opt+1)*2^l)`. |
| TableGenerator.MultStr | tools/optimal_convolution_floating_point_generator.py:119-139 | `OPTIMAL_MULT_STR`: `'{`, the multiplier entries of the flattened kernel joined by commas, then `};`. |
| TableGenerator.MultStrEntries | tools/optimal_convolution_floating_point_generator.py:119-139 | `OPTIMAL_MULT_STR` is `'{` … `};`. Split on commas, its inside is exactly the entries in flattened order, each preceded by a newline at the start of a kernel row. |
| TableGenerator.ClearUnused | tools/optimal_convolution_floating_point_generator.py:122-129 | Starting from all ones, the loops clear level 0 from `LINEAR_WIDTH` on and level l from `2^(levels-l)` on, giving the cleared table. |
| TableGenerator.Level0PassStep | tools/optimal_convolution_floating_point_generator.py:131-136 | Each step of the multiplier loop clears `OPTIMAL_ADD[0][opt]` exactly when the kernel entry is 0. |
| TableGenerator.MultiplierPass | tools/optimal_convolution_floating_point_generator.py:131-139 | The loop returns the multiplier listing and the level-0 table. It fails exactly when the kernel is shorter than `LINEAR_WIDTH`, or when there are no adder levels and entry 0 is 0 (an index error). |
| TableGenerator.CombinedStep | tools/optimal_convolution_floating_point_generator.py:143-147 | Each step of the level loop clears a node exactly when both its children at the level below are 0. |
| TableGenerator.CombineLevels | tools/optimal_convolution_floating_point_generator.py:141-147 | The nested in-place loop gives exactly the pruned table. |
| TableGenerator.Generate | tools/optimal_convolution_floating_point_generator.py:98-147 | The generator's table-building part gives exactly the specified listing and table, or the specified error. |
| TableGenerator.GenerateSpec | tools/optimal_convolution_floating_point_generator.py:98-147 | The generator up to its tables. Errors in source order: an empty kernel, a zero `LINEAR_WIDTH` (log of 0), a kernel shorter than `LINEAR_WIDTH`, and a single zero entry, for which the table has no level to clear (an `IndexError`). Otherwise the listing and the pruned table. |
| TableGenerator.GenerateFails | tools/optimal_convolution_floating_point_generator.py:99-136 | Generation fails iff one of these holds: the kernel is empty; `LINEAR_WIDTH` is 0 (the log2 domain error); the flattened kernel is shorter than `LINEAR_WIDTH`; or there is a single zero entry (an empty `OPTIMAL_ADD`). |
| TableGenerator.GeneratedTableMeaning | tools/optimal_convolution_floating_point_generator.py:122-147 | The table has `levels × 2^levels` entries with `LINEAR_WIDTH <= 2^levels`. Each entry is 1 iff its leaf range holds a nonzero kernel entry. |
| Grid.ReshapeAt | tools/p3_16bit_green_to_fp16_npy.py:89 | A row-major reshape puts `s[i*cols + j]` at `(i, j)`. |
| Grid.CropAt | tools/serialcam_ft232h/serialcam_stream_utils_ft232h.py:230 | A cropped pixel `(i, j)` is the image pixel at `(r0+i, c0+j)`. |
| PpmWriter.MaxvalFor | tools/png_to_ppm_converter.py:80-90 | maxval is 65535 exactly for the band modes `I;16`, `I;16B`, `I;16L` and `I`, and 255 otherwise. |
| PpmWriter.Clamp | tools/png_to_ppm_converter.py:59-60 | The clamped value lies in `[0, maxval]`. It is the value itself when in range, 0 below the range and maxval above it. |
| PpmWriter.PpmText | tools/png_to_ppm_converter.py:41-71 | The text `write_ppm_p3` writes: `P3`, `w h` and maxval lines, then one `v v v ` line per clamped value. |
| PpmWriter.WritePpmP3 | tools/png_to_ppm_converter.py:41-71 | The writing loop (clamp, triplet, counters, newline) produces exactly the header followed by one line per value. The final newline branch adds nothing. |
| PpmRoundTrip.HeaderLines | tools/png_to_ppm_converter.py:47-50 | The header is the three lines `P3`, `<width> <height>` and `<maxval>`. |
| PpmRoundTrip.BodyLines | tools/png_to_ppm_converter.py:53-68 | The body has exactly one line per input value, in order, each `v v v \n` of the clamped value. |
| PpmRoundTrip.WrittenLines | tools/png_to_ppm_converter.py:41-71 | The file has `3 + len(values)` lines: the three header lines, then the pixel lines. No check ties the count to `width*height`. |
| PpmRoundTrip.HeaderTokensOf | tools/png_to_ppm_converter.py:48-50 | The header lines tokenize to `P3`, width, height and maxval. |
| PpmRoundTrip.BodyTokens | tools/png_to_ppm_converter.py:57-68 | The pixel lines of 16-bit values tokenize to each value three times, in order. |
| PpmRoundTrip.WriteThenRead | tools/png_to_ppm_converter.py:41-71 | w·h values in `0..65535`, written with maxval 65535 and positive sizes, come back through the extractor (tokenizer, header parser, pixel reader, reshape) as the same values in an h × w image. |
| PpmReader.FileLinesCons | tools/p3_16bit_green_to_fp16_npy.py:21 | Iterating a text file yields a line ending in its only newline first, then the lines of the rest. |
| PpmReader.BeforeComment | tools/p3_16bit_green_to_fp16_npy.py:22 | The text kept from a line holds no `#`. |
| PpmReader.LineTokensWords | tools/p3_16bit_green_to_fp16_npy.py:22-26 | A line's tokens are the whitespace-separated words of its text before the first `#`; a line blank after that yields none. |
| PpmReader.TokenStream | tools/p3_16bit_green_to_fp16_npy.py:18-26 | Every token is a non-empty run without whitespace. |
| PpmReader.TokenStreamAppend | tools/p3_16bit_green_to_fp16_npy.py:21-26 | The tokens of two groups of lines are the first group's followed by the second's, so tokens come line by line in order. |
| PpmReader.IntTokensAt | tools/p3_16bit_green_to_fp16_npy.py:37-39 | The parsed view of the tokens holds `int(token)` (or a failure) at every index. |
| PpmReader.ParseHeader | tools/p3_16bit_green_to_fp16_npy.py:28-46 | A parsed header has `width >= 1`, `height >= 1` and `1 <= maxval <= 65535`. |
| PpmReader.ParseHeaderOutcome | tools/p3_16bit_green_to_fp16_npy.py:28-46 | The header parses iff the first token is `P3` and the next three are integers meeting the bounds, and it then holds those values. No tokens gives the missing-magic error, and a first token other than `P3` gives the bad-magic error. |
| PpmReader.ParseHeaderShort | tools/p3_16bit_green_to_fp16_npy.py:36-40 | After `P3` with fewer than three more tokens, the parse fails. The error is "not an integer" iff some field present before the end is not an integer; otherwise it is the early-end error. |
| PpmReader.ParseHeaderOrder | tools/p3_16bit_green_to_fp16_npy.py:36-45 | With all four tokens present, a failure is "not an integer" if some field does not parse, else "bad dimensions" if width or height is below 1, else "bad maxval". |
| PpmReader.PixelGreen | tools/p3_16bit_green_to_fp16_npy.py:54-65 | A pixel is read iff three tokens remain, all integers in `0..maxval`, and maxval is 65535; its value is the second token. Running out of tokens fails with an early-end or non-integer error. |
| PpmReader.GreenChannel | tools/p3_16bit_green_to_fp16_npy.py:48-66 | `read_green_channel_uint16` as a value: it fails for a negative pixel count. Otherwise it reads `width*height` triplets from its token position, with the range and 16-bit checks, and keeps each middle value. |
| PpmReader.ReadGreens | tools/p3_16bit_green_to_fp16_npy.py:53-66 | A successful read of n pixels gives n values. It used `3n` tokens, and maxval is 65535 when n > 0. |
| PpmReader.ReadGreenChannel | tools/p3_16bit_green_to_fp16_npy.py:48-66 | The loop filling the preallocated array gives exactly the pure green-channel reader, including its errors and a negative pixel count. |
| PpmReader.ReadGreensAt | tools/p3_16bit_green_to_fp16_npy.py:53-63 | `greens[i]` is the pixel read at token `p + 3i`. |
| PpmReader.GreenChannelAt | tools/p3_16bit_green_to_fp16_npy.py:50-63 | `greens[i]` is `int` of the second token of the i-th triplet, and all three samples are in range. |
| PpmReader.GreenChannelIgnoresTrailing | tools/p3_16bit_green_to_fp16_npy.py:53-66 | Tokens after the pixels change nothing. |
| PpmReader.GreenChannelFails | tools/p3_16bit_green_to_fp16_npy.py:58-65 | With at least one pixel, too few tokens or a maxval other than 65535 makes the read fail. |
| PpmReader.ConvertP3 | tools/p3_16bit_green_to_fp16_npy.py:84-89 | The extractor on the lines of a file: tokenize, parse the header, read the green channel, reshape to height × width. |
| PpmReader.ConvertTokensRowMajor | tools/p3_16bit_green_to_fp16_npy.py:84-89 | After a good header and pixel read, the image has height rows, and element `(r, c)` is `greens[r*width + c]`. |
| PpmReader.ConvertTokensFails | tools/p3_16bit_green_to_fp16_npy.py:84-86 | A header error is reported as is; otherwise a pixel error is reported. |

## Left out

- Transport I/O is not modelled: the `ft232h` device reader, the read thread
  and the blocking semantics of `queue.Queue`. Queues are sequences and each
  chunk is a parameter.
- Threads and their wiring are not modelled (`serialcam_stream_ft232h.py`).
- The GUI is not modelled: Qt widgets, the display window and signals.
- The FPS computation and status bar are floats and Qt.
- The printing of the error message for a malformed frame is not modelled;
  that the frame is malformed is the returned flag.
- `os.makedirs` and `cv2.imwrite` are file-system writes. The saved file names
  and pixel bytes are returned instead. A failing `makedirs` happens after the
  fields are set, so it has no effect on the modelled state. The one
  `imwrite` failure modelled is the write of an image without pixels, which
  stops the capture step.
- `DataRateStats.get_results`'s float division (bytes per second) is not
  computed. `RateStats.DataRateStats.GetResults` returns the sums, the
  effective window, and whether the division takes place.
- RateStats.DataRateStats.RegisterBytesRead: takes the time as an integer
  number of milliseconds instead of reading the float wall clock.
- StreamDecoding.StreamDecoder.StepRecordRequest: requires a queued image for
  every channel. In the source, a `get` from an empty recorder queue blocks
  forever, and that case is not modelled. The run loop only steps after a
  complete channel loop, which queues those images (`PushedReady`).
- FrameReassembly.BinaryDecoder.constructor: requires a non-empty marker,
  because the source indexes the marker's first byte on every scan.
- The NumPy integer width in `combine_bytes` is not modelled; integers are
  unbounded. With the shift unit as written (`data_width` per byte), byte j of
  a k-byte sample is shifted by `data_width*(k-1-j)`. From a data width of 28
  the top term (up to 255·2^56) passes 2^63, so int64 overflows, and from 32
  the shift counts reach 64, where NumPy does not give 2^shift. From a data
  width of 28 on, `StreamDemux.CombineFrameAt`, `Recording.ReduceImage` and
  `StreamDecoding.HandleFrameSaved` therefore state the unbounded value, not
  what NumPy computes. The uint8 cast of saved pixels is modelled as `mod 256`.
- The header combine `(int(msb) << 8) + lsb`, with `lsb` a `np.uint8`, is
  modelled under NumPy 1.x value-based promotion, where the sum widens. Under
  NumPy 2 (NEP 50) promotion, a non-zero high byte makes the Python int
  `int(msb) << 8` out of range for `uint8`. The addition then raises
  `OverflowError` in `find_magic_bytes`
  (`tools/serialcam_ft232h/serialcam_stream_utils_ft232h.py:159-160`). No
  `try` catches it, so the reassembler's run loop ends.
  `FrameReassembly.HeaderAtBigEndian` states the NumPy 1.x value.
- `HomographyWidget.parse_matrix_string` (a regex plus float parsing) is left
  out. Ragged matrix text makes it raise a `ValueError` outside the dialog's
  `try`, which the model's `Commands.Homography` does not capture: it takes the
  parsed rows and rejects anything that is not 3×3. Also left out is the
  float rounding in `float_to_s10_q_8` and in the DfDD `get_values`. The encoders start from the already rounded, scaled integer,
  and a failed float parse of the DfDD text is an absent value.
- A non-finite DfDD or homography entry ("inf", "1e400") passes `float()`
  and `int(np.round(...))` then raises an uncaught `OverflowError` (a "nan"
  raises an uncaught `ValueError` in the homography encoder, whose rounding
  is outside its `try`). The dialogs catch only `ValueError` around the
  parse, and the model's `Option<int>` input has no such path.
- Python's `int()` is modelled on ASCII text only: whitespace, sign, the base
  prefix and underscores between digits. Unicode digits and spaces are not
  modelled.
- The float branch of `is_power_of_two`, and `log2`/`ceil` on floats, are
  replaced by exact integer logarithms (floor `Log2`, ceiling `Clog2`).
  Kernels are integer matrices.
- The generator's `KERNEL_2D_STR`, the `OPTIMAL_ADD_STR` text, the
  SystemVerilog template and the file output are left out. They are text
  formatting and I/O after the tables are built.
- `tile_arrays` and `printhex` are not called by the stream decoder, the
  dialogs or the generator; one relies on a
  float `sqrt`, the other is console output.
- `get_green_channel` in the PNG converter is PIL image decoding. The writer
  takes the grey values and the band mode as parameters.
- The float16 `.view` reinterpretation, `np.save` and the final print of the
  extractor are left out. `PpmReader.ConvertP3` stops at the row-major reshape
  of the 16-bit greens.
- File reading is modelled as Python's line iteration split on `'\n'` only.
  Universal-newline translation of `'\r'` and `'\r\n'` is not modelled, and
  neither are ASCII decoding errors.
- The analysis and plotting scripts are not part of this model:
  `compute_mae.py`, `compute_mae_true.py`, `visualize_fp16_npy.py`,
  `filter_viewer.py` and `live_image_viewer.py`.

## Findings

| source | as written | input that shows it | evidently intended | confidence | as-written member | corrected member |
|---|---|---|---|---|---|---|
| tools/serialcam_ft232h/serialcam_stream_utils_ft232h.py:142 | The emitted frame carries the header fields last written by the scan, i.e. the header after the last marker found. | A chunk with `BIVFRAME`, header 1×1×1×8, payload `[7]`, then `BIVFRAME` and header 2×1×1×8. The frame `[7]` is emitted labelled 2×1. | The header after the marker that opens the payload (1×1). | not executed | FrameReassembly.FeedAttachesLastHeader | FrameReassembly.FeedIntendedHeader |
| tools/serialcam_ft232h/serialcam_stream_utils_ft232h.py:215 | `combine_bytes` is passed `data_width` (bits per sample) as the shift between bytes. | A 16-bit sample with bytes `[1, 2]` combines to 65538 instead of 258. | A big-endian combine with an 8-bit shift per byte. | not executed | StreamDemux.CombineShiftExample | StreamDemux.CombineFrameIntendedAt |
| tools/serialcam_ft232h/serialcam_stream_utils_ft232h.py:305 | The 8-bit reduction of a recorded 16-bit frame sees `b0*65536 + b1` and shifts it by 8, so the uint8 cast keeps 0. | Any 16-bit sample, e.g. bytes `[1, 2]`, is saved as pixel 0. | The pixel is the sample's high byte `b0`. | not executed | Recording.SixteenBitPixelsAsWritten | Recording.SixteenBitPixelsIntended |

The decoder classes keep the behaviour as written. For each row, the corrected
definition and its property are proved beside the as-written one.
