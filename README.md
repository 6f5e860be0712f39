# ttyrec transcoder: a Dafny model

`ttyrec-transcode.py` copies a ttyrec terminal recording. It changes the
character set of each frame's payload and keeps the binary framing and the
timestamps as they were. A ttyrec file is a run of frames with no
terminator. Each frame is a 12-byte header of three unsigned 32-bit
little-endian integers (seconds, microseconds, payload length) followed by
exactly that many payload bytes.

This project models the core of the program:

- `Wire` (wire.dfy): bytes, 32-bit little-endian integers, and the header's
  `struct.pack('<III', …)` / `struct.unpack`.
- `Frames` (frames.dfy): the frame codec. `DecodeFrameAt` is one read at a
  file position: a clean end of file, a short header, a short payload, or a
  frame. `DecodeStream` reads frames until the end of file.
- `Timing` (timing.dfy): the inter-frame delay, in exact integer
  microseconds, and the delays of a run of frames.
- `Reader` (reader.dfy): class `TtyPlay`, with the file as a byte sequence
  and a position, a `closed` flag, and the fields `seconds`, `useconds`,
  `length`, `frameno`, `duration` and `frame`. It also has `read_frame`,
  `compute_framelen` and `compute_framedelays`.
- `Writer` (writer.dfy): class `TtyRecWriter`. Its output file is a byte
  sequence that `write_frame` appends to.
- `Transcoder` (transcoder.dfy): the main loop. It reads every frame,
  decodes and re-encodes the payload, writes the frame with the original
  timestamps and counts frames. The file also has client methods that
  combine the classes.

Python's exceptions become `Failure` values of a `Result`. The character-set
conversion `payload.decode(src).encode(dst)` is modelled by two
uninterpreted total functions passed as parameters. Each returns `None`
where Python's strict codec raises.

Two consequences of the code that the model keeps:

- `read_frame` runs the "frame is in past" check for every frame after the
  first (ttyrec-transcode.py:117-119), and the transcoding loop calls
  `read_frame` (line 230). So a recording whose timestamps go backwards
  fails to transcode.
- The loop calls `decode` and `encode` without `errors=` (lines 231-233), so
  both are strict: an unrepresentable character aborts the pass.

## Model

| member | source | states |
|---|---|---|
| `Wire.FromToLE` | ttyrec-transcode.py:186 | decoding the n-byte little-endian encoding of any x below 256^n gives x back |
| `Wire.ToFromLE` | ttyrec-transcode.py:113 | every byte string is the little-endian encoding of the number it denotes |
| `Wire.PackHeader` | ttyrec-transcode.py:186 | a packed `<III` header is 12 bytes, and unpacking it gives back seconds, microseconds and length |
| `Wire.PackUnpack` | ttyrec-transcode.py:113 | every 12-byte string is the packing of the header it unpacks to |
| `Frames.EncodeFrame` | ttyrec-transcode.py:186-188 | the bytes written for one frame are 12 more than its payload (header, then payload) |
| `Frames.DecodeFrameAt` | ttyrec-transcode.py:102-116 | a read at a position finds: end of file exactly when no byte is left; a short header exactly when 1 to 11 bytes are left; a short payload exactly when fewer bytes follow the header than it declares; otherwise a frame whose payload fits 32 bits, followed by the position 12 + length further on |
| `Frames.DecodedFrameIsEncoding` | ttyrec-transcode.py:113-114 | the bytes a frame was read from are exactly header-then-payload of that frame |
| `Frames.DecodeEncodedFrame` | ttyrec-transcode.py:113-116 | an encoded frame at any position of a stream reads back as the same frame, and the cursor moves just past it |
| `Frames.DecodeStream` | ttyrec-transcode.py:229-230 | reading until end of file gives frames whose lengths all fit the 32-bit length field, or the first short read |
| `Frames.StreamRoundTrip` | ttyrec-transcode.py:186-188 | frames written back to back are read back as the same frames in order, then a clean end of file |
| `Frames.StreamReencodes` | ttyrec-transcode.py:113-116 | a file that reads without error is exactly the concatenated encodings of its frames |
| `Frames.EncodeStreamAppend` | ttyrec-transcode.py:187-188 | writing a + b emits the bytes of writing a, then those of writing b |
| `Timing.DeltaSign` | ttyrec-transcode.py:75-79 | for microsecond fields below 10^6, the delay is non-negative exactly when the timestamp does not go back |
| `Timing.Delays` | ttyrec-transcode.py:88-93 | one delay per frame after a previous timestamp, one per consecutive pair (K − 1, or 0 for no frame) from the first frame of a file |
| `Timing.DelaysSnoc` | ttyrec-transcode.py:90-92 | reading one more frame adds exactly its delay from the latest timestamp, and nothing for the first frame of a file |
| `Timing.PastFrameBreaksOrder` | ttyrec-transcode.py:118-119 | one frame earlier than the latest timestamp makes every stream that contains it at that place fail the order |
| `Timing.DelaysOfFile` | ttyrec-transcode.py:88-93 | the delays of a file are the differences of consecutive frames, in order |
| `Timing.OrderedIsChronological` | ttyrec-transcode.py:75-79 | with normal microsecond fields, a file has no frame in the past exactly when its timestamps never decrease |
| `Reader.TtyPlay.constructor` | ttyrec-transcode.py:48-65 | a new reader is at position 0 of an open file, with all header fields, the frame number and the delay 0 and an empty frame |
| `Reader.TtyPlay.ComputeFramelen` | ttyrec-transcode.py:67-80 | fails with "frame is in past" exactly when the delay from the previous timestamp is negative; otherwise returns that delay, which is non-negative |
| `Reader.TtyPlay.Read` | ttyrec-transcode.py:102 | `file.read(n)` returns the next n bytes, or fewer at the end, and advances the position by the number returned |
| `Reader.TtyPlay.ReadFrame` | ttyrec-transcode.py:95-123 | on a closed file, fails and changes nothing. At a clean end of file, returns false and either rewinds with frame number 0 (loop mode) or closes the file. On a short header, fails with the position at the end of file. On a short payload, fails with `frame` holding the partial payload. Otherwise it advances by exactly 12 + length and adds 1 to the frame number; for a frame after the first with a negative delay it fails and keeps the previous timestamp; otherwise it returns true with `seconds`, `useconds`, `length` and `frame` from the frame and `duration` updated only after the first frame |
| `Reader.ScanStep` | ttyrec-transcode.py:90-92 | one more frame read in order keeps the frames in order, adds its delay to the list (nothing for the first frame of a pass) and becomes the latest timestamp |
| `Reader.ReadFailureFailsScan` | ttyrec-transcode.py:107-119 | a short header, a short payload or a frame in the past at any point of a pass means the whole file does not read in order |
| `Reader.TtyPlay.ReadInLoop` | ttyrec-transcode.py:90 | `read_frame(loop=True)` during a pass: a failure means the file does not read in order, and is FrameInPast when the whole file decodes; at end of file it rewinds with frame number 0 and keeps the header fields, payload and delay; otherwise it steps over exactly the next frame, takes its header and payload, adds 1 to the frame number and, after the first frame, sets the delay to the frame's non-negative delay |
| `Reader.TtyPlay.ScanNext` | ttyrec-transcode.py:90-92 | one turn of the delay loop: a failure means the file does not read in order, and is FrameInPast when the whole file decodes; at end of file the frames read are the whole file, in order, with their delays; otherwise one more frame is read, its delay appended after the first frame, and the reader shows that frame |
| `Reader.TtyPlay.ComputeFramedelays` | ttyrec-transcode.py:82-93 | on a closed file, fails with ClosedFile and changes nothing; on an open file, fails with FrameInPast whenever the whole file decodes, and succeeds exactly when the whole file reads without error and no frame is in the past, counting from the reader's previous timestamp if it had one. Then it returns the delays of all frames but the first, in order, with the position and the frame number back at 0. The header fields and payload are then those of the last frame and `duration` is the last delay; for an empty file all of them are unchanged |
| `Reader.ScanRecording` | ttyrec-transcode.py:88-93 | on a fresh reader over K well-formed frames: succeeds exactly when no frame is in the past, fails otherwise with FrameInPast, and on success returns K − 1 (or 0) non-negative delays, the i-th between frames i and i + 1 |
| `Writer.TtyRecWriter.constructor` | ttyrec-transcode.py:168-178 | a new writer's output is empty |
| `Writer.TtyRecWriter.WriteFrame` | ttyrec-transcode.py:180-189 | succeeds exactly when seconds, microseconds and payload length fit 32 bits; then appends header-then-payload and keeps earlier output; otherwise writes nothing |
| `Transcoder.Recode` | ttyrec-transcode.py:231-233 | the new payload exists exactly when decoding the payload succeeds and encoding the decoded text succeeds, and it is then the encoded text |
| `Transcoder.TranscodeFrames` | ttyrec-transcode.py:231-235 | the frames the pass writes exist exactly when every payload recodes to fewer than 2^32 bytes; they are as many as the input, in order, with unchanged timestamps and recoded payloads |
| `Transcoder.IdentityTranscode` | ttyrec-transcode.py:231-233 | with a recoding that returns every payload unchanged, the written frames are the input frames |
| `Transcoder.IdentityTranscodeCopies` | ttyrec-transcode.py:229-236 | with a recoding that returns every payload unchanged, the written bytes are the input file from the reader's position on |
| `Transcoder.UnfitFrameFailsPass` | ttyrec-transcode.py:231-235 | a payload that fails to decode or encode, or is too long to pack, anywhere in the file makes the pass fail |
| `Transcoder.ReadNext` | ttyrec-transcode.py:230 | `read_frame()` during the main loop: a failure means the file does not read in order; at end of file the file is closed at its end and the frames read are the whole file; otherwise it steps over exactly the next frame and takes its timestamp and payload |
| `Transcoder.TranscodeNext` | ttyrec-transcode.py:230-236 | one turn of the main loop: a failure means the whole pass fails; at end of file the frames read are the whole file and the output holds all their recodings; otherwise one more frame is read and its recoding appended to the output. The output from before the pass is always kept |
| `Transcoder.Transcode` | ttyrec-transcode.py:229-236 | succeeds exactly when the file reads without error, no frame is in the past and every payload recodes and packs. The frame count is then the number of frames read, the file is closed at its end, and the output is the old output followed by the recoded frames in input order with their original timestamps. Earlier output is never changed |
| `Transcoder.WriteThenRead` | ttyrec-transcode.py:180-188 | a frame written into an empty file is read back with the same seconds, microseconds, length and payload, and the next read is a clean end of file |
| `Transcoder.ScanThenTranscode` | ttyrec-transcode.py:104-106 | after a successful delay pre-scan, a transcoding pass over the same reader succeeds exactly when one over a fresh reader does, and then gives the same count and output |

## Left out

- Argument parsing and progress printing (`argparse`, `print_out`): command-line glue.
- `display_frame`: writes to the terminal. It is I/O plus a lossy Python decode.
- Opening files by path or by detecting `io.IOBase`, `close`, and `__enter__`/`__exit__`: resource management. The model keeps only a `closed` flag, which a non-loop end of file sets, and the rewind. `TtyPlay.close` setting `frame` to `None` is not modelled.
- The character-set codecs: a foreign library. Decode and encode are uninterpreted, possibly failing functions given as parameters.
- Reader.TtyPlay.ComputeFramelen: returns the exact delay in integer microseconds, not the float number of seconds that the program computes and divides by `speed`. The model has no `speed` field. The program only uses the default 1.0. When both microsecond fields are below 10^6, any positive speed and the float rounding leave the sign of the delay unchanged, so the "in past" decision agrees with the program's. Zero and negative speeds are not modelled.
- Reader.TtyPlay.ComputeFramelen: a microsecond field of 10^6 or more is accepted as the program accepts it, but the model then decides "in past" on the exact delay. The program subtracts the two microsecond fields as floats after dividing each by 10^6 (ttyrec-transcode.py:76). With such fields a delay that is exactly zero can round to a tiny negative number. One example is a previous stamp of (1, 340561) and a current one of (0, 1340561). The program then raises "frame is in past" where the model does not.
- Reader.TtyPlay.ComputeFramedelays: when the file is cut short inside a frame, the contract does not say which error is raised; on any failure it does not say where the reader stops.
- Transcoder.Transcode: on failure the contract does not say which error is raised. For the output it only says that earlier output is kept.
- Transcoder.ScanThenTranscode: when both passes fail, it does not state that they fail in the same way.
