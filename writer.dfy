/** TtyRecWriter: appends frames to an output byte stream. */
module Writer {
  import opened Wire
  import opened Frames

  class TtyRecWriter {
    var out: seq<byte>  // everything written to the output file so far

    constructor ()
      ensures out == []
    {
      out := [];
    }

    /**
     * Writes the header packed from (seconds, useconds, |payload|), then
     * the payload. Packing fails, and nothing is written, when a field does
     * not fit an unsigned 32-bit integer.
     */
    method WriteFrame(seconds: int, useconds: int, payload: seq<byte>) returns (ok: bool)
      modifies this
      ensures ok <==> 0 <= seconds < U32_BOUND && 0 <= useconds < U32_BOUND && |payload| < U32_BOUND
      ensures ok ==> out == old(out) + EncodeFrame(Frame(seconds, useconds, payload))
      ensures !ok ==> out == old(out)
    {
      if !(0 <= seconds < U32_BOUND && 0 <= useconds < U32_BOUND && |payload| < U32_BOUND) {
        return false;
      }
      var header := PackHeader(Header(seconds, useconds, |payload|));
      out := out + header;
      out := out + payload;
      return true;
    }
  }
}
