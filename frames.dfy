/**
 * One ttyrec frame on the wire: a 12-byte header (seconds, microseconds,
 * payload length) followed by exactly `length` payload bytes. A stream is
 * frames back to back with no terminator.
 */
module Frames {
  import opened Results
  import opened Wire

  datatype Frame = Frame(sec: u32, usec: u32, payload: seq<byte>)

  /** A frame whose payload length fits the 32-bit length field. */
  predicate WellFormed(f: Frame) {
    |f.payload| < U32_BOUND
  }

  predicate AllWellFormed(fs: seq<Frame>) {
    forall i :: 0 <= i < |fs| ==> WellFormed(fs[i])
  }

  /** The errors read_frame raises (all ValueError in ttyrec-transcode.py). */
  datatype ReadError =
    | ShortHeader   // a header of 1 to 11 bytes
    | ShortPayload  // fewer payload bytes than the header declares
    | FrameInPast   // a negative delay from the previous frame
    | ClosedFile    // reading a file that an earlier end of file closed

  function HeaderOf(f: Frame): Header
    requires WellFormed(f)
  {
    Header(f.sec, f.usec, |f.payload|)
  }

  /** Concatenation is associative (stated once, so that proofs need not rediscover it). */
  lemma ConcatAssoc<T>(a: seq<T>, b: seq<T>, c: seq<T>)
    ensures a + b + c == a + (b + c)
  {
  }

  /** A non-empty sequence is its head followed by its tail. */
  lemma HeadTail<T>(s: seq<T>)
    requires s != []
    ensures [s[0]] + s[1..] == s
  {
  }

  /** Dropping the head of a non-empty a + b drops the head of a. */
  lemma TailOfConcat<T>(a: seq<T>, b: seq<T>)
    requires a != []
    ensures (a + b)[0] == a[0] && (a + b)[1..] == a[1..] + b
  {
  }

  /** The bytes write_frame emits for one frame: a 12-byte header, then the payload. */
  function EncodeFrame(f: Frame): (r: seq<byte>)
    requires WellFormed(f)
    ensures |r| == HEADER_SIZE + |f.payload|
  {
    PackHeader(HeaderOf(f)) + f.payload
  }

  function EncodeStream(fs: seq<Frame>): (r: seq<byte>)
    requires AllWellFormed(fs)
  {
    if fs == [] then [] else EncodeFrame(fs[0]) + EncodeStream(fs[1..])
  }

  /** What reading one frame at a position finds. */
  datatype Step = End | Truncated(err: ReadError) | Next(frame: Frame, next: nat)

  /**
   * Decoding one frame at `pos`: a clean end of file when no byte is left,
   * a short read when the header or the payload is cut off, else the frame
   * and the position just past it.
   */
  function DecodeFrameAt(data: seq<byte>, pos: nat): (r: Step)
    requires pos <= |data|
    ensures r.End? <==> pos == |data|
    ensures r == Truncated(ShortHeader) <==> 0 < |data| - pos < HEADER_SIZE
    ensures r == Truncated(ShortPayload) <==>
              pos + HEADER_SIZE <= |data| &&
              |data| - pos - HEADER_SIZE < UnpackHeader(data[pos..pos + HEADER_SIZE]).len
    ensures r.Truncated? ==> r.err == ShortHeader || r.err == ShortPayload
    ensures r.Next? ==> WellFormed(r.frame) && pos < r.next == pos + HEADER_SIZE + |r.frame.payload| <= |data|
  {
    if pos == |data| then End
    else if |data| - pos < HEADER_SIZE then Truncated(ShortHeader)
    else
      var h := UnpackHeader(data[pos..pos + HEADER_SIZE]);
      if |data| - pos - HEADER_SIZE < h.len then Truncated(ShortPayload)
      else Next(Frame(h.sec, h.usec, data[pos + HEADER_SIZE..pos + HEADER_SIZE + h.len]), pos + HEADER_SIZE + h.len)
  }

  /** The bytes a decoded frame was read from are exactly its encoding. */
  lemma DecodedFrameIsEncoding(data: seq<byte>, pos: nat)
    requires pos <= |data| && DecodeFrameAt(data, pos).Next?
    ensures data[pos..DecodeFrameAt(data, pos).next] == EncodeFrame(DecodeFrameAt(data, pos).frame)
  {
    var h := data[pos..pos + HEADER_SIZE];
    PackUnpack(h);
    var s := DecodeFrameAt(data, pos);
    assert data[pos..s.next] == h + data[pos + HEADER_SIZE..s.next];
  }

  /** An encoded frame, wherever it sits in a stream, decodes to itself. */
  lemma DecodeEncodedFrame(pre: seq<byte>, f: Frame, rest: seq<byte>)
    requires WellFormed(f)
    ensures DecodeFrameAt(pre + EncodeFrame(f) + rest, |pre|) == Next(f, |pre| + HEADER_SIZE + |f.payload|)
  {
    var data := pre + EncodeFrame(f) + rest;
    var p := |pre|;
    assert data[p..p + HEADER_SIZE] == PackHeader(HeaderOf(f));
    assert data[p + HEADER_SIZE..p + HEADER_SIZE + |f.payload|] == f.payload;
  }

  function Prepend(fs: seq<Frame>, r: Result<seq<Frame>, ReadError>): Result<seq<Frame>, ReadError>
  {
    match r
    case Success(gs) => Success(fs + gs)
    case Failure(e) => Failure(e)
  }

  /**
   * Reading frames from `pos` until a clean end of file: the frames in
   * order, or the first short read.
   */
  function DecodeStream(data: seq<byte>, pos: nat): (r: Result<seq<Frame>, ReadError>)
    requires pos <= |data|
    ensures r.Success? ==> AllWellFormed(r.value)
    decreases |data| - pos
  {
    match DecodeFrameAt(data, pos)
    case End => Success([])
    case Truncated(e) => Failure(e)
    case Next(f, next) => Prepend([f], DecodeStream(data, next))
  }

  lemma PrependNothing(r: Result<seq<Frame>, ReadError>)
    ensures Prepend([], r) == r
  {
    if r.Success? {
      assert [] + r.value == r.value;
    }
  }

  /** The loop invariant of a reader: what is read so far, then what remains. */
  lemma DecodeStreamAdvance(data: seq<byte>, start: nat, done: seq<Frame>, at: nat)
    requires start <= |data| && at <= |data|
    requires DecodeStream(data, start) == Prepend(done, DecodeStream(data, at))
    requires DecodeFrameAt(data, at).Next?
    ensures DecodeStream(data, start) ==
            Prepend(done + [DecodeFrameAt(data, at).frame], DecodeStream(data, DecodeFrameAt(data, at).next))
  {
    var s := DecodeFrameAt(data, at);
    match DecodeStream(data, s.next)
    case Success(rest) =>
      assert done + ([s.frame] + rest) == (done + [s.frame]) + rest;
    case Failure(_) =>
  }

  lemma DecodeStreamEnd(data: seq<byte>, start: nat, done: seq<Frame>)
    requires start <= |data|
    requires DecodeStream(data, start) == Prepend(done, DecodeStream(data, |data|))
    ensures DecodeStream(data, start) == Success(done)
  {
    assert done + [] == done;
  }

  lemma DecodeStreamTruncated(data: seq<byte>, start: nat, done: seq<Frame>, at: nat)
    requires start <= |data| && at <= |data|
    requires DecodeStream(data, start) == Prepend(done, DecodeStream(data, at))
    requires DecodeFrameAt(data, at).Truncated?
    ensures DecodeStream(data, start).Failure?
  {
  }

  /** Reading a whole frame at `pos` puts it in front of what the rest of the file reads as. */
  lemma DecodeStreamNext(data: seq<byte>, pos: nat)
    requires pos <= |data| && DecodeFrameAt(data, pos).Next?
    ensures DecodeStream(data, pos) ==
            Prepend([DecodeFrameAt(data, pos).frame], DecodeStream(data, DecodeFrameAt(data, pos).next))
  {
  }

  /** Frames written back to back read back as the same frames, then end of file. */
  lemma {:induction false} StreamRoundTrip(pre: seq<byte>, fs: seq<Frame>)
    requires AllWellFormed(fs)
    ensures DecodeStream(pre + EncodeStream(fs), |pre|) == Success(fs)
    decreases |fs|
  {
    var data := pre + EncodeStream(fs);
    if fs == [] {
      assert data == pre;
    } else {
      var f := fs[0];
      var e, rest := EncodeFrame(f), EncodeStream(fs[1..]);
      assert EncodeStream(fs) == e + rest;
      ConcatAssoc(pre, e, rest);
      DecodeEncodedFrame(pre, f, rest);
      var pre' := pre + e;
      assert data == pre' + rest;
      StreamRoundTrip(pre', fs[1..]);
      assert DecodeFrameAt(data, |pre|) == Next(f, |pre'|);
      DecodeStreamNext(data, |pre|);
      assert DecodeStream(data, |pre|) == Prepend([f], Success(fs[1..]));
      HeadTail(fs);
    }
  }

  /** A stream that decodes is exactly the encoding of its frames. */
  lemma {:induction false} StreamReencodes(data: seq<byte>, pos: nat)
    requires pos <= |data| && DecodeStream(data, pos).Success?
    ensures EncodeStream(DecodeStream(data, pos).value) == data[pos..]
    decreases |data| - pos
  {
    var s := DecodeFrameAt(data, pos);
    if s.Next? {
      StreamReencodes(data, s.next);
      DecodedFrameIsEncoding(data, pos);
      var fs := DecodeStream(data, pos).value;
      assert fs[0] == s.frame && fs[1..] == DecodeStream(data, s.next).value;
      assert data[pos..] == data[pos..s.next] + data[s.next..];
    }
  }

  /** Encoding distributes over concatenation of frame lists. */
  lemma {:induction false} EncodeStreamAppend(a: seq<Frame>, b: seq<Frame>)
    requires AllWellFormed(a) && AllWellFormed(b)
    ensures AllWellFormed(a + b)
    ensures EncodeStream(a + b) == EncodeStream(a) + EncodeStream(b)
    decreases |a|
  {
    assert forall i :: 0 <= i < |a + b| ==> (a + b)[i] == if i < |a| then a[i] else b[i - |a|];
    if a == [] {
      assert a + b == b;
    } else {
      EncodeStreamAppend(a[1..], b);
      var x := a[0];
      assert WellFormed(x);
      var e := EncodeFrame(x);
      TailOfConcat(a, b);
      assert EncodeStream(a + b) == e + EncodeStream(a[1..] + b);
      ConcatAssoc(e, EncodeStream(a[1..]), EncodeStream(b));
    }
  }
}
