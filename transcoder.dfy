/**
 * The transcoding pass: read every frame, decode its payload from the
 * source character set, encode it into the target one, and write it with
 * the original timestamps, counting frames.
 */
module Transcoder {
  import opened Results
  import opened Wire
  import opened Frames
  import opened Timing
  import opened Reader
  import opened Writer

  /** Python's text type, a sequence of code points. */
  type Text = seq<char>

  datatype TranscodeError =
    | ReadFailed(err: ReadError)  // read_frame raised
    | DecodeFailed                // strict decode from the source encoding raised
    | EncodeFailed                // strict encode into the target encoding raised
    | PackFailed                  // the new payload is too long for the length field

  /** payload.decode(source).encode(target); None when either step raises. */
  function Recode(decode: seq<byte> -> Option<Text>, encode: Text -> Option<seq<byte>>, payload: seq<byte>): (r: Option<seq<byte>>)
    ensures r.None? <==> decode(payload).None? || encode(decode(payload).value).None?
    ensures r.Some? ==> r.value == encode(decode(payload).value).value
  {
    match decode(payload)
    case None => None
    case Some(text) => encode(text)
  }

  /** A recoded payload that write_frame can pack. */
  predicate Fits(o: Option<seq<byte>>) {
    o.Some? && |o.value| < U32_BOUND
  }

  /**
   * The frames the pass writes for input frames `fs`: same timestamps, same
   * order, recoded payloads; None when some payload cannot be recoded.
   */
  function TranscodeFrames(fs: seq<Frame>, decode: seq<byte> -> Option<Text>, encode: Text -> Option<seq<byte>>): (r: Option<seq<Frame>>)
    ensures r.Some? <==> forall i :: 0 <= i < |fs| ==> Fits(Recode(decode, encode, fs[i].payload))
    ensures r.Some? ==>
      |r.value| == |fs| && AllWellFormed(r.value) &&
      forall i :: 0 <= i < |fs| ==>
        r.value[i].sec == fs[i].sec && r.value[i].usec == fs[i].usec &&
        Recode(decode, encode, fs[i].payload) == Some(r.value[i].payload)
  {
    if fs == [] then Some([])
    else
      var last := fs[|fs| - 1];
      var p := Recode(decode, encode, last.payload);
      match TranscodeFrames(fs[..|fs| - 1], decode, encode)
      case None => None
      case Some(gs) => if Fits(p) then Some(gs + [Frame(last.sec, last.usec, p.value)]) else None
  }

  /** With a recoding that leaves every payload as it is, the frames come out unchanged. */
  lemma IdentityTranscode(fs: seq<Frame>, decode: seq<byte> -> Option<Text>, encode: Text -> Option<seq<byte>>)
    requires AllWellFormed(fs)
    requires forall p :: Recode(decode, encode, p) == Some(p)
    ensures TranscodeFrames(fs, decode, encode) == Some(fs)
  {
    forall i | 0 <= i < |fs|
      ensures Fits(Recode(decode, encode, fs[i].payload))
    {
      assert Recode(decode, encode, fs[i].payload) == Some(fs[i].payload);
    }
    var gs := TranscodeFrames(fs, decode, encode).value;
    forall i | 0 <= i < |fs|
      ensures gs[i] == fs[i]
    {
      assert Recode(decode, encode, fs[i].payload) == Some(fs[i].payload);
    }
    assert |gs| == |fs|;
    assert gs == fs;
  }

  /** With an identity recoding, a transcoded file is a byte-for-byte copy. */
  lemma IdentityTranscodeCopies(data: seq<byte>, pos: nat, decode: seq<byte> -> Option<Text>, encode: Text -> Option<seq<byte>>)
    requires pos <= |data| && DecodeStream(data, pos).Success?
    requires forall p :: Recode(decode, encode, p) == Some(p)
    ensures TranscodeFrames(DecodeStream(data, pos).value, decode, encode).Some?
    ensures EncodeStream(TranscodeFrames(DecodeStream(data, pos).value, decode, encode).value) == data[pos..]
  {
    IdentityTranscode(DecodeStream(data, pos).value, decode, encode);
    StreamReencodes(data, pos);
  }

  lemma TranscodeFramesSnoc(done: seq<Frame>, f: Frame, made: seq<Frame>, p: seq<byte>,
                            decode: seq<byte> -> Option<Text>, encode: Text -> Option<seq<byte>>)
    requires TranscodeFrames(done, decode, encode) == Some(made)
    requires Recode(decode, encode, f.payload) == Some(p) && |p| < U32_BOUND
    ensures TranscodeFrames(done + [f], decode, encode) == Some(made + [Frame(f.sec, f.usec, p)])
  {
    assert (done + [f])[..|done|] == done;
  }

  /** One payload that cannot be recoded makes the whole pass fail. */
  lemma UnfitFrameFails(all: seq<Frame>, k: nat, decode: seq<byte> -> Option<Text>, encode: Text -> Option<seq<byte>>)
    requires k < |all| && !Fits(Recode(decode, encode, all[k].payload))
    ensures TranscodeFrames(all, decode, encode).None?
  {
  }

  /** The write of one more frame extends the output by that frame's encoding. */
  lemma EncodeStreamSnoc(out0: seq<byte>, made: seq<Frame>, g: Frame)
    requires AllWellFormed(made) && WellFormed(g)
    ensures AllWellFormed(made + [g])
    ensures out0 + EncodeStream(made) + EncodeFrame(g) == out0 + EncodeStream(made + [g])
  {
    EncodeStreamAppend(made, [g]);
    var e := EncodeFrame(g);
    assert EncodeStream([g]) == e + EncodeStream([]);
    assert e + [] == e;
    ConcatAssoc(out0, EncodeStream(made), e);
  }

  /**
   * Whether the pass over the frames from `start` succeeds: every frame is
   * whole, none is in the past of the one before it and every payload recodes.
   */
  ghost predicate PassSucceeds(data: seq<byte>, start: nat, prev: Option<Stamp>,
                               decode: seq<byte> -> Option<Text>, encode: Text -> Option<seq<byte>>)
    requires start <= |data|
  {
    var stream := DecodeStream(data, start);
    stream.Success? && Chronological(prev, stream.value) && TranscodeFrames(stream.value, decode, encode).Some?
  }

  /** A payload that cannot be recoded, or packed, fails the whole pass. */
  lemma UnfitFrameFailsPass(data: seq<byte>, start: nat, done: seq<Frame>, f: Frame, next: nat, prev: Option<Stamp>,
                            decode: seq<byte> -> Option<Text>, encode: Text -> Option<seq<byte>>)
    requires start <= |data| && next <= |data|
    requires DecodeStream(data, start) == Prepend(done + [f], DecodeStream(data, next))
    requires !Fits(Recode(decode, encode, f.payload))
    ensures !PassSucceeds(data, start, prev, decode, encode)
  {
    match DecodeStream(data, next)
    case Success(rest) =>
      UnfitFrameFails(done + [f] + rest, |done|, decode, encode);
    case Failure(_) =>
  }

  /**
   * Part way through reading a file from `start` in default mode: the frames
   * `done` have been read, in order, and the reader's timestamp is the latest.
   */
  ghost predicate Reading(reader: TtyPlay, prev: Option<Stamp>, start: nat, done: seq<Frame>)
    reads reader
  {
    reader.Valid() && start <= |reader.data| && !reader.closed &&
    DecodeStream(reader.data, start) == Prepend(done, DecodeStream(reader.data, reader.pos)) &&
    PrevOf(reader.frameno, reader.seconds, reader.useconds) == Latest(prev, done) &&
    Chronological(prev, done)
  }

  /**
   * read_frame in default mode, as the main loop calls it: fails on a short
   * read or a frame in the past, returns false at end of file (closing it),
   * and otherwise returns true with the reader on the next frame `f`.
   */
  method ReadNext(reader: TtyPlay, ghost prev: Option<Stamp>, ghost start: nat, ghost done: seq<Frame>)
    returns (read: Result<bool, ReadError>, ghost f: Frame)
    requires Reading(reader, prev, start, done)
    modifies reader
    ensures reader.Valid()
    ensures read.Failure? ==>
      !(DecodeStream(reader.data, start).Success? && Chronological(prev, DecodeStream(reader.data, start).value))
    ensures read == Success(false) ==>
      reader.closed && reader.pos == |reader.data| && DecodeStream(reader.data, start) == Success(done)
    ensures read == Success(true) ==>
      Reading(reader, prev, start, done + [f]) && old(reader.pos) < reader.pos &&
      reader.seconds == f.sec && reader.useconds == f.usec && reader.frame == f.payload
  {
    ghost var at := reader.pos;
    ghost var step := DecodeFrameAt(reader.data, at);
    f := Frame(0, 0, []);
    read := reader.ReadFrame(false);
    if read.Failure? {
      ReadFailureFailsScan(reader.data, start, done, at, prev);
    } else if !read.value {
      assert step.End?;
      DecodeStreamEnd(reader.data, start, done);
    } else {
      assert step.Next? && reader.pos == step.next;
      f := step.frame;
      DecodeStreamAdvance(reader.data, start, done, at);
      ChronologicalSnoc(prev, done, f);
    }
  }

  /**
   * Part way through the main loop: the frames `done` have been read from
   * `start`, in order, and their recodings `made` written after `out0`.
   */
  ghost predicate Transcoding(reader: TtyPlay, writer: TtyRecWriter,
                              decode: seq<byte> -> Option<Text>, encode: Text -> Option<seq<byte>>,
                              prev: Option<Stamp>, start: nat, out0: seq<byte>, done: seq<Frame>, made: seq<Frame>)
    reads reader, writer
  {
    Reading(reader, prev, start, done) && TranscodeFrames(done, decode, encode) == Some(made) &&
    AllWellFormed(made) && writer.out == out0 + EncodeStream(made) && out0 <= writer.out
  }

  /**
   * One turn of the main loop: reads a frame, recodes its payload and
   * writes it with the frame's timestamp. Success(false) at end of file.
   */
  method TranscodeNext(reader: TtyPlay, writer: TtyRecWriter,
                       decode: seq<byte> -> Option<Text>, encode: Text -> Option<seq<byte>>,
                       ghost prev: Option<Stamp>, ghost start: nat, ghost out0: seq<byte>,
                       ghost done: seq<Frame>, ghost made: seq<Frame>)
    returns (r: Result<bool, TranscodeError>, ghost done': seq<Frame>, ghost made': seq<Frame>)
    requires Transcoding(reader, writer, decode, encode, prev, start, out0, done, made)
    modifies reader, writer
    ensures reader.Valid() && out0 <= writer.out
    ensures r.Failure? ==> !PassSucceeds(reader.data, start, prev, decode, encode)
    ensures r == Success(true) ==>
      Transcoding(reader, writer, decode, encode, prev, start, out0, done', made') &&
      |done'| == |done| + 1 && old(reader.pos) < reader.pos
    ensures r == Success(false) ==>
      done' == done && made' == made && reader.closed && reader.pos == |reader.data| && DecodeStream(reader.data, start) == Success(done) &&
      Chronological(prev, done) && TranscodeFrames(done, decode, encode) == Some(made) &&
      writer.out == out0 + EncodeStream(made)
  {
    done', made' := done, made;
    var read;
    ghost var f;
    read, f := ReadNext(reader, prev, start, done);
    if read.Failure? {
      r := Failure(ReadFailed(read.error));
    } else if !read.value {
      r := Success(false);
    } else {
      var text := decode(reader.frame);
      var payload := if text.None? then None else encode(text.value);
      var ok := false;
      if payload.Some? {
        ghost var before := writer.out;
        ok := writer.WriteFrame(reader.seconds, reader.useconds, payload.value);
        assert before <= writer.out;
      }
      if !ok {
        UnfitFrameFailsPass(reader.data, start, done, f, reader.pos, prev, decode, encode);
        r := Failure(if text.None? then DecodeFailed else if payload.None? then EncodeFailed else PackFailed);
      } else {
        TranscodeFramesSnoc(done, f, made, payload.value, decode, encode);
        ghost var g := Frame(f.sec, f.usec, payload.value);
        EncodeStreamSnoc(out0, made, g);
        done', made' := done + [f], made + [g];
        r := Success(true);
      }
    }
  }

  /**
   * The program's main loop. read_frame runs in its default mode, so a
   * frame in the past still fails the pass; decode and encode are strict.
   */
  method Transcode(reader: TtyPlay, writer: TtyRecWriter,
                   decode: seq<byte> -> Option<Text>, encode: Text -> Option<seq<byte>>)
    returns (r: Result<nat, TranscodeError>)
    requires reader.Valid()
    modifies reader, writer
    ensures reader.Valid()
    ensures old(reader.closed) ==> r == Failure(ReadFailed(ClosedFile)) && writer.out == old(writer.out)
    ensures !old(reader.closed) ==>
      var stream := DecodeStream(reader.data, old(reader.pos));
      var prev := PrevOf(old(reader.frameno), old(reader.seconds), old(reader.useconds));
      (r.Success? <==> PassSucceeds(reader.data, old(reader.pos), prev, decode, encode)) &&
      (r.Success? ==>
        r.value == |stream.value| && reader.closed && reader.pos == |reader.data| &&
        writer.out == old(writer.out) + EncodeStream(TranscodeFrames(stream.value, decode, encode).value))
    ensures old(writer.out) <= writer.out
  {
    if reader.closed {
      return Failure(ReadFailed(ClosedFile));
    }
    ghost var prev := PrevOf(reader.frameno, reader.seconds, reader.useconds);
    ghost var start := reader.pos;
    ghost var out0 := writer.out;
    ghost var done: seq<Frame> := [];
    ghost var made: seq<Frame> := [];
    PrependNothing(DecodeStream(reader.data, start));
    var frames: nat := 0;
    var more := true;
    while more
      invariant reader.Valid() && out0 <= writer.out
      invariant more ==> Transcoding(reader, writer, decode, encode, prev, start, out0, done, made)
      invariant !more ==>
        reader.closed && reader.pos == |reader.data| && DecodeStream(reader.data, start) == Success(done) &&
        Chronological(prev, done) && TranscodeFrames(done, decode, encode) == Some(made) &&
        writer.out == out0 + EncodeStream(made)
      invariant frames == |done|
      decreases more, |reader.data| - reader.pos
    {
      var step;
      step, done, made := TranscodeNext(reader, writer, decode, encode, prev, start, out0, done, made);
      if step.Failure? {
        return Failure(step.error);
      }
      more := step.value;
      if more {
        frames := frames + 1;
      }
    }
    return Success(frames);
  }

  /**
   * A frame written by write_frame into an empty file is read back by
   * read_frame with the same header fields and payload, and the next read
   * is a clean end of file.
   */
  method WriteThenRead(sec: u32, usec: u32, payload: seq<byte>)
    returns (first: Result<bool, ReadError>, s: int, u: int, len: int, p: seq<byte>, second: Result<bool, ReadError>)
    requires |payload| < U32_BOUND
    ensures first == Success(true) && second == Success(false)
    ensures s == sec && u == usec && len == |payload| && p == payload
  {
    var writer := new TtyRecWriter();
    var _ := writer.WriteFrame(sec, usec, payload);
    var f := Frame(sec, usec, payload);
    assert writer.out == [] + EncodeFrame(f) + [];
    DecodeEncodedFrame([], f, []);
    var reader := new TtyPlay(writer.out);
    first := reader.ReadFrame(false);
    s, u, len, p := reader.seconds, reader.useconds, reader.length, reader.frame;
    second := reader.ReadFrame(false);
  }

  /**
   * After a successful compute_framedelays the reader is back at the
   * start with no previous frame, so a transcoding pass over it behaves as
   * one over a freshly opened reader.
   */
  method ScanThenTranscode(contents: seq<byte>, decode: seq<byte> -> Option<Text>, encode: Text -> Option<seq<byte>>)
    returns (scan: Result<seq<int>, ReadError>, pass: Result<nat, TranscodeError>, again: Result<nat, TranscodeError>,
             out: seq<byte>, freshOut: seq<byte>)
    ensures scan.Success? ==> (pass.Success? <==> again.Success?)
    ensures scan.Success? && pass.Success? ==> pass == again && out == freshOut
  {
    var reader := new TtyPlay(contents);
    scan := reader.ComputeFramedelays();
    var writer := new TtyRecWriter();
    pass := Transcode(reader, writer, decode, encode);
    var reader2 := new TtyPlay(contents);
    var writer2 := new TtyRecWriter();
    again := Transcode(reader2, writer2, decode, encode);
    out, freshOut := writer.out, writer2.out;
  }
}
