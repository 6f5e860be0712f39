/**
 * TtyPlay, the stateful ttyrec reader: a cursor over the file's bytes plus
 * the header fields of the last frame read, the frame counter and the
 * last computed delay.
 */
module Reader {
  import opened Results
  import opened Wire
  import opened Frames
  import opened Timing

  /** The timestamp a reader measures the next delay from: none before its first frame. */
  function PrevOf(frameno: nat, seconds: u32, useconds: u32): Option<Stamp> {
    if frameno > 0 then Some(Stamp(seconds, useconds)) else None
  }

  class TtyPlay {
    const data: seq<byte>  // the contents of the file
    var pos: nat           // the file position
    var closed: bool
    var seconds: u32       // sec field of the last header
    var useconds: u32      // usec field of the last header
    var length: u32        // len field of the last header
    var frameno: nat       // number of the current frame, 0 before the first
    var duration: int      // delay of the last frame, in microseconds
    var frame: seq<byte>   // payload of the last frame

    ghost predicate Valid()
      reads this
    {
      pos <= |data|
    }

    constructor (contents: seq<byte>)
      ensures Valid() && data == contents && pos == 0 && !closed
      ensures seconds == 0 && useconds == 0 && length == 0
      ensures frameno == 0 && duration == 0 && frame == []
    {
      data := contents;
      pos, closed := 0, false;
      seconds, useconds, length := 0, 0, 0;
      frameno, duration, frame := 0, 0, [];
    }

    /** The delay from the last frame read to a frame stamped (sec, usec). */
    function ComputeFramelen(sec: u32, usec: u32): (r: Result<int, ReadError>)
      reads this
      ensures r.Failure? <==> Delta(Stamp(seconds, useconds), Stamp(sec, usec)) < 0
      ensures r.Failure? ==> r.error == FrameInPast
      ensures r.Success? ==> r.value >= 0 && r.value == Delta(Stamp(seconds, useconds), Stamp(sec, usec))
    {
      var d := Delta(Stamp(seconds, useconds), Stamp(sec, usec));
      if d < 0 then Failure(FrameInPast) else Success(d)
    }

    /** file.read(n): up to n bytes from the file position, fewer at the end. */
    method Read(n: nat) returns (chunk: seq<byte>)
      requires Valid()
      modifies this`pos
      ensures Valid()
      ensures pos == if old(pos) + n <= |data| then old(pos) + n else |data|
      ensures chunk == data[old(pos)..pos]
    {
      var end := if pos + n <= |data| then pos + n else |data|;
      chunk := data[pos..end];
      pos := end;
    }

    /**
     * Reads one frame. Success(true) for a frame, Success(false) for a
     * clean end of file (rewinding in loop mode, closing otherwise), and a
     * failure for a short read or a frame in the past.
     */
    method ReadFrame(loop: bool) returns (r: Result<bool, ReadError>)
      requires Valid()
      modifies this
      ensures Valid()
      ensures old(closed) ==> r == Failure(ClosedFile) && unchanged(this)
      ensures !old(closed) && DecodeFrameAt(data, old(pos)) == End ==>
        r == Success(false) &&
        unchanged(this`seconds, this`useconds, this`length, this`duration, this`frame) &&
        if loop then pos == 0 && frameno == 0 && !closed
        else pos == old(pos) && frameno == old(frameno) && closed
      ensures !old(closed) && DecodeFrameAt(data, old(pos)) == Truncated(ShortHeader) ==>
        r == Failure(ShortHeader) && pos == |data| &&
        unchanged(this`closed, this`seconds, this`useconds, this`length, this`frameno, this`duration, this`frame)
      ensures !old(closed) && DecodeFrameAt(data, old(pos)) == Truncated(ShortPayload) ==>
        r == Failure(ShortPayload) && pos == |data| && frame == data[old(pos) + HEADER_SIZE..] &&
        unchanged(this`closed, this`seconds, this`useconds, this`length, this`frameno, this`duration)
      ensures !old(closed) && DecodeFrameAt(data, old(pos)).Next? ==>
        var f := DecodeFrameAt(data, old(pos)).frame;
        var d := Delta(Stamp(old(seconds), old(useconds)), StampOf(f));
        pos == old(pos) + HEADER_SIZE + |f.payload| && frameno == old(frameno) + 1 &&
        frame == f.payload && !closed &&
        if old(frameno) > 0 && d < 0 then
          r == Failure(FrameInPast) && unchanged(this`seconds, this`useconds, this`length, this`duration)
        else
          r == Success(true) && seconds == f.sec && useconds == f.usec && length == |f.payload| &&
          duration == if old(frameno) > 0 then d else old(duration)
    {
      if closed {
        return Failure(ClosedFile);
      }
      var header := Read(HEADER_SIZE);
      if |header| == 0 {
        if loop {
          pos := 0;
          frameno := 0;
        } else {
          closed := true;
        }
        return Success(false);
      } else if |header| < HEADER_SIZE {
        return Failure(ShortHeader);
      }
      var h := UnpackHeader(header);
      frame := Read(h.len);
      if |frame| < h.len {
        return Failure(ShortPayload);
      }
      frameno := frameno + 1;
      if frameno > 1 {
        var d := ComputeFramelen(h.sec, h.usec);
        if d.Failure? {
          return Failure(d.error);
        }
        duration := d.value;
      }
      seconds, useconds, length := h.sec, h.usec, h.len;
      return Success(true);
    }

    /**
     * The header fields and payload are those of the last frame of `done` (the values
     * `s0`, `u0`, `l0`, `f0` when there is none), and `duration` is the last of `delays`
     * (`d0` when there is none).
     */
    ghost predicate ShowsLast(done: seq<Frame>, delays: seq<int>, s0: u32, u0: u32, l0: u32, f0: seq<byte>, d0: int)
      reads this
    {
      (if done == [] then seconds == s0 && useconds == u0 && length == l0 && frame == f0
       else
         var last := done[|done| - 1];
         seconds == last.sec && useconds == last.usec && length == |last.payload| && frame == last.payload) &&
      duration == if delays == [] then d0 else delays[|delays| - 1]
    }

    /**
     * Part way through a pass of compute_framedelays: the frames `done` have been read
     * from the start of the file, in order, and `delays` holds their delays.
     */
    ghost predicate Scanning(prev: Option<Stamp>, done: seq<Frame>, delays: seq<int>,
                             s0: u32, u0: u32, l0: u32, f0: seq<byte>, d0: int)
      reads this
    {
      Valid() && !closed &&
      DecodeStream(data, 0) == Prepend(done, DecodeStream(data, pos)) &&
      PrevOf(frameno, seconds, useconds) == Latest(prev, done) &&
      Chronological(prev, done) && delays == Delays(prev, done) &&
      ShowsLast(done, delays, s0, u0, l0, f0, d0)
    }

    /**
     * read_frame in loop mode, seen from a pass over the file that has read the
     * frames `done`: fails on a short read or a frame in the past, rewinds at end
     * of file, and otherwise steps over the next frame `f` and takes its header.
     */
    method ReadInLoop(ghost prev: Option<Stamp>, ghost done: seq<Frame>) returns (read: Result<bool, ReadError>, ghost f: Frame)
      requires Valid() && !closed
      requires DecodeStream(data, 0) == Prepend(done, DecodeStream(data, pos))
      requires PrevOf(frameno, seconds, useconds) == Latest(prev, done)
      modifies this
      ensures Valid()
      ensures read.Failure? ==>
        !(DecodeStream(data, 0).Success? && Chronological(prev, DecodeStream(data, 0).value))
      ensures read.Failure? && DecodeStream(data, 0).Success? ==> read.error == FrameInPast
      ensures read == Success(false) ==>
        DecodeStream(data, 0) == Success(done) && pos == 0 && frameno == 0 && !closed &&
        unchanged(this`seconds, this`useconds, this`length, this`frame, this`duration)
      ensures read == Success(true) ==>
        DecodeStream(data, 0) == Prepend(done + [f], DecodeStream(data, pos)) && old(pos) < pos && !closed &&
        seconds == f.sec && useconds == f.usec && length == |f.payload| && frame == f.payload &&
        frameno == old(frameno) + 1 &&
        (old(frameno) > 0 ==>
          Delta(Stamp(old(seconds), old(useconds)), StampOf(f)) >= 0 &&
          duration == Delta(Stamp(old(seconds), old(useconds)), StampOf(f))) &&
        (old(frameno) == 0 ==> duration == old(duration))
    {
      ghost var at := pos;
      ghost var step := DecodeFrameAt(data, at);
      f := Frame(0, 0, []);
      read := ReadFrame(true);
      if read.Failure? {
        ReadFailureFailsScan(data, 0, done, at, prev);
        if step.Truncated? {
          DecodeStreamTruncated(data, 0, done, at);
        }
      } else if read.value {
        assert step.Next? && pos == step.next;
        f := step.frame;
        DecodeStreamAdvance(data, 0, done, at);
      } else {
        assert step.End?;
        DecodeStreamEnd(data, 0, done);
      }
    }

    /** One turn of the compute_framedelays loop: reads a frame and records its delay. */
    method ScanNext(ghost prev: Option<Stamp>, ghost done: seq<Frame>, delays: seq<int>,
                    ghost s0: u32, ghost u0: u32, ghost l0: u32, ghost f0: seq<byte>, ghost d0: int)
      returns (read: Result<bool, ReadError>, delays': seq<int>, ghost done': seq<Frame>)
      requires Scanning(prev, done, delays, s0, u0, l0, f0, d0)
      modifies this
      ensures Valid()
      ensures read.Failure? ==>
        !(DecodeStream(data, 0).Success? && Chronological(prev, DecodeStream(data, 0).value))
      ensures read.Failure? && DecodeStream(data, 0).Success? ==> read.error == FrameInPast
      ensures read == Success(true) ==>
        Scanning(prev, done', delays', s0, u0, l0, f0, d0) && old(pos) < pos
      ensures read == Success(false) ==>
        done' == done && DecodeStream(data, 0) == Success(done) && pos == 0 && frameno == 0 && !closed &&
        Chronological(prev, done) && delays' == Delays(prev, done) &&
        ShowsLast(done, delays', s0, u0, l0, f0, d0)
    {
      ghost var before := (seconds, useconds, frameno);
      delays', done' := delays, done;
      ghost var f;
      read, f := ReadInLoop(prev, done);
      if read == Success(true) {
        ScanStep(prev, done, f, before.2, before.0, before.1);
        if frameno > 1 {
          delays' := delays + [duration];
        }
        done' := done + [f];
        assert done'[|done'| - 1] == f;
      }
    }

    /**
     * Rewinds and reads the whole file in loop mode, collecting the delay
     * of every frame but the first. The first delay is measured from the
     * reader's previous timestamp when it has already read frames.
     */
    method ComputeFramedelays() returns (r: Result<seq<int>, ReadError>)
      requires Valid()
      modifies this
      ensures Valid()
      ensures old(closed) ==> r == Failure(ClosedFile) && unchanged(this)
      ensures !old(closed) && r.Failure? && DecodeStream(data, 0).Success? ==> r.error == FrameInPast
      ensures !old(closed) ==>
        var prev := PrevOf(old(frameno), old(seconds), old(useconds));
        var stream := DecodeStream(data, 0);
        (r.Success? <==> stream.Success? && Chronological(prev, stream.value)) &&
        (r.Success? ==> r.value == Delays(prev, stream.value) && pos == 0 && frameno == 0 && !closed)
      // after a whole pass the header fields, payload and delay are those of the last frame
      ensures r.Success? ==>
        ShowsLast(DecodeStream(data, 0).value, r.value, old(seconds), old(useconds), old(length), old(frame), old(duration))
    {
      if closed {
        return Failure(ClosedFile);
      }
      ghost var prev := PrevOf(frameno, seconds, useconds);
      pos := 0;
      PrependNothing(DecodeStream(data, 0));
      var delays: seq<int> := [];
      ghost var done: seq<Frame> := [];
      assert Delays(prev, done) == [];
      var more := true;
      while more
        invariant Valid() && !closed
        invariant more ==>
          Scanning(prev, done, delays, old(seconds), old(useconds), old(length), old(frame), old(duration))
        invariant !more ==>
          DecodeStream(data, 0) == Success(done) && pos == 0 && frameno == 0 &&
          Chronological(prev, done) && delays == Delays(prev, done) &&
          ShowsLast(done, delays, old(seconds), old(useconds), old(length), old(frame), old(duration))
        decreases more, |data| - pos
      {
        var read;
        read, delays, done :=
          ScanNext(prev, done, delays, old(seconds), old(useconds), old(length), old(frame), old(duration));
        if read.Failure? {
          return Failure(read.error);
        }
        more := read.value;
      }
      assert DecodeStream(data, 0).value == done;
      return Success(delays);
    }
  }

  /**
   * One more frame read in order by a reader whose last stamp is `Latest(prev, done)`:
   * the frames stay chronological, the delays gain the frame's gap (none for the first
   * frame of a pass) and the frame becomes the latest.
   */
  lemma ScanStep(prev: Option<Stamp>, done: seq<Frame>, f: Frame, frameno: nat, seconds: u32, useconds: u32)
    requires PrevOf(frameno, seconds, useconds) == Latest(prev, done)
    requires Chronological(prev, done)
    requires frameno > 0 ==> Delta(Stamp(seconds, useconds), StampOf(f)) >= 0
    ensures Chronological(prev, done + [f])
    ensures Delays(prev, done + [f]) ==
            Delays(prev, done) + if frameno > 0 then [Delta(Stamp(seconds, useconds), StampOf(f))] else []
    ensures Latest(prev, done + [f]) == Some(StampOf(f))
  {
    DelaysSnoc(prev, done, f);
    ChronologicalSnoc(prev, done, f);
  }

  /** A short read, or a frame in the past, at `at` fails a pass over the file from `start`. */
  lemma ReadFailureFailsScan(data: seq<byte>, start: nat, done: seq<Frame>, at: nat, prev: Option<Stamp>)
    requires start <= |data| && at <= |data|
    requires DecodeStream(data, start) == Prepend(done, DecodeStream(data, at))
    requires DecodeFrameAt(data, at).Truncated? ||
             (DecodeFrameAt(data, at).Next? && Latest(prev, done).Some? &&
              Delta(Latest(prev, done).value, StampOf(DecodeFrameAt(data, at).frame)) < 0)
    ensures !(DecodeStream(data, start).Success? && Chronological(prev, DecodeStream(data, start).value))
  {
    var step := DecodeFrameAt(data, at);
    if step.Truncated? {
      DecodeStreamTruncated(data, start, done, at);
    } else {
      DecodeStreamAdvance(data, start, done, at);
      match DecodeStream(data, step.next)
      case Success(rest) => PastFrameBreaksOrder(prev, done, step.frame, rest);
      case Failure(_) =>
    }
  }

  /**
   * compute_framedelays on a fresh reader over a file of well-formed
   * frames: one delay per consecutive pair, in order, or FrameInPast when
   * some frame is earlier than the one before it.
   */
  method ScanRecording(fs: seq<Frame>) returns (r: Result<seq<int>, ReadError>)
    requires AllWellFormed(fs)
    ensures r.Success? <==> Chronological(None, fs)
    ensures r.Failure? ==> r.error == FrameInPast
    ensures r.Success? ==>
      |r.value| == (if fs == [] then 0 else |fs| - 1) &&
      forall i :: 0 <= i < |r.value| ==> r.value[i] == Delta(StampOf(fs[i]), StampOf(fs[i + 1])) && r.value[i] >= 0
  {
    var reader := new TtyPlay(EncodeStream(fs));
    StreamRoundTrip([], fs);
    assert [] + EncodeStream(fs) == EncodeStream(fs);
    assert DecodeStream(reader.data, 0) == Success(fs);
    assert PrevOf(reader.frameno, reader.seconds, reader.useconds) == None;
    r := reader.ComputeFramedelays();
    assert r.Success? <==> Chronological(None, fs);
    DelaysOfFile(fs);
  }
}
