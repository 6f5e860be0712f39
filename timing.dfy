/**
 * Inter-frame delays. The program computes a float number of seconds
 * divided by a speed; the model keeps the exact delay in microseconds.
 * When both microsecond fields are below 10^6, the two have the same sign
 * for any positive speed.
 */
module Timing {
  import opened Results
  import opened Frames

  const USEC_PER_SEC: int := 1000000

  datatype Stamp = Stamp(sec: int, usec: int)

  function StampOf(f: Frame): Stamp {
    Stamp(f.sec, f.usec)
  }

  /** Microseconds from `prev` to `cur`; negative when `cur` is earlier. */
  function Delta(prev: Stamp, cur: Stamp): int {
    (cur.sec - prev.sec) * USEC_PER_SEC + (cur.usec - prev.usec)
  }

  /** A timestamp whose microsecond field is below one second. */
  predicate Normal(t: Stamp) {
    0 <= t.usec < USEC_PER_SEC
  }

  /** Lexicographic order on (seconds, microseconds). */
  predicate NotBefore(prev: Stamp, cur: Stamp) {
    prev.sec < cur.sec || (prev.sec == cur.sec && prev.usec <= cur.usec)
  }

  /** For normal timestamps the delay is non-negative exactly when time does not go back. */
  lemma DeltaSign(prev: Stamp, cur: Stamp)
    requires Normal(prev) && Normal(cur)
    ensures Delta(prev, cur) >= 0 <==> NotBefore(prev, cur)
  {
    var d := cur.sec - prev.sec;
    if d >= 1 {
      assert d * USEC_PER_SEC >= USEC_PER_SEC;
    } else if d <= -1 {
      assert d * USEC_PER_SEC <= -USEC_PER_SEC;
    }
  }

  function Stamps(fs: seq<Frame>): (r: seq<Stamp>)
    ensures |r| == |fs| && forall i :: 0 <= i < |fs| ==> r[i] == StampOf(fs[i])
  {
    seq(|fs|, i requires 0 <= i < |fs| => StampOf(fs[i]))
  }

  /** The timestamps a delay computation sees: the previous one, if any, then the frames'. */
  function Timeline(prev: Option<Stamp>, fs: seq<Frame>): seq<Stamp> {
    (if prev.Some? then [prev.value] else []) + Stamps(fs)
  }

  /** The delay between each consecutive pair of timestamps. */
  function Gaps(ts: seq<Stamp>): (r: seq<int>)
    ensures |r| == if |ts| == 0 then 0 else |ts| - 1
    ensures forall i :: 0 <= i < |r| ==> r[i] == Delta(ts[i], ts[i + 1])
  {
    if |ts| <= 1 then [] else seq(|ts| - 1, i requires 0 <= i < |ts| - 1 => Delta(ts[i], ts[i + 1]))
  }

  /**
   * The delays read_frame computes for frames `fs`, starting from the
   * previous timestamp `prev` (None before the first frame of a file).
   */
  function Delays(prev: Option<Stamp>, fs: seq<Frame>): (r: seq<int>)
    ensures |r| == if prev.Some? then |fs| else if fs == [] then 0 else |fs| - 1
  {
    Gaps(Timeline(prev, fs))
  }

  /** The timestamp the next delay is measured from after reading `fs`. */
  function Latest(prev: Option<Stamp>, fs: seq<Frame>): Option<Stamp> {
    if fs == [] then prev else Some(StampOf(fs[|fs| - 1]))
  }

  /** No frame of `fs` is in the past of the one before it. */
  predicate Chronological(prev: Option<Stamp>, fs: seq<Frame>) {
    forall i :: 0 <= i < |Delays(prev, fs)| ==> Delays(prev, fs)[i] >= 0
  }

  lemma GapsSnoc(ts: seq<Stamp>, t: Stamp)
    ensures Gaps(ts + [t]) == Gaps(ts) + (if |ts| == 0 then [] else [Delta(ts[|ts| - 1], t)])
  {
    var l := Gaps(ts + [t]);
    var r := Gaps(ts) + (if |ts| == 0 then [] else [Delta(ts[|ts| - 1], t)]);
    assert |l| == |r|;
    forall i | 0 <= i < |l| ensures l[i] == r[i] {
      assert (ts + [t])[i] == ts[i];
    }
  }

  /** Reading one more frame adds its delay, unless it is the first frame. */
  lemma DelaysSnoc(prev: Option<Stamp>, fs: seq<Frame>, f: Frame)
    ensures Delays(prev, fs + [f]) ==
            Delays(prev, fs) + (if Latest(prev, fs).Some? then [Delta(Latest(prev, fs).value, StampOf(f))] else [])
  {
    var ts := Timeline(prev, fs);
    assert Stamps(fs + [f]) == Stamps(fs) + [StampOf(f)];
    assert Timeline(prev, fs + [f]) == ts + [StampOf(f)];
    GapsSnoc(ts, StampOf(f));
    assert Latest(prev, fs).Some? <==> |ts| > 0;
    assert |ts| > 0 ==> Latest(prev, fs).value == ts[|ts| - 1];
  }

  /** A frame not in the past of the latest one keeps the order. */
  lemma ChronologicalSnoc(prev: Option<Stamp>, done: seq<Frame>, f: Frame)
    requires Chronological(prev, done)
    requires Latest(prev, done).Some? ==> Delta(Latest(prev, done).value, StampOf(f)) >= 0
    ensures Chronological(prev, done + [f])
  {
    DelaysSnoc(prev, done, f);
  }

  /** The delays of a prefix are a prefix of the delays. */
  lemma DelaysPrefix(prev: Option<Stamp>, a: seq<Frame>, b: seq<Frame>)
    ensures |Delays(prev, a)| <= |Delays(prev, a + b)|
    ensures forall i :: 0 <= i < |Delays(prev, a)| ==> Delays(prev, a + b)[i] == Delays(prev, a)[i]
  {
    var ts := Timeline(prev, a);
    var us := Timeline(prev, a + b);
    assert Stamps(a + b) == Stamps(a) + Stamps(b);
    assert us == ts + Stamps(b);
  }

  /** One frame in the past of the one before it breaks the order of every extension. */
  lemma PastFrameBreaksOrder(prev: Option<Stamp>, done: seq<Frame>, f: Frame, rest: seq<Frame>)
    requires Latest(prev, done).Some? && Delta(Latest(prev, done).value, StampOf(f)) < 0
    ensures !Chronological(prev, done + [f] + rest)
  {
    DelaysSnoc(prev, done, f);
    DelaysPrefix(prev, done + [f], rest);
    var k := |Delays(prev, done)|;
    assert Delays(prev, done + [f])[k] < 0;
    assert Delays(prev, done + [f] + rest)[k] < 0;
  }

  /** Delays from the first frame of a file: one per consecutive pair of frames. */
  lemma DelaysOfFile(fs: seq<Frame>)
    ensures |Delays(None, fs)| == if fs == [] then 0 else |fs| - 1
    ensures forall i :: 0 <= i < |fs| - 1 ==> Delays(None, fs)[i] == Delta(StampOf(fs[i]), StampOf(fs[i + 1]))
  {
    assert Timeline(None, fs) == Stamps(fs);
  }

  predicate Ordered(fs: seq<Frame>) {
    forall i :: 0 <= i < |fs| - 1 ==> NotBefore(StampOf(fs[i]), StampOf(fs[i + 1]))
  }

  /**
   * A file whose microsecond fields are all normal is free of frames in
   * the past exactly when its timestamps never decrease.
   */
  lemma OrderedIsChronological(fs: seq<Frame>)
    requires forall i :: 0 <= i < |fs| ==> Normal(StampOf(fs[i]))
    ensures Chronological(None, fs) <==> Ordered(fs)
  {
    DelaysOfFile(fs);
    forall i | 0 <= i < |fs| - 1
      ensures Delays(None, fs)[i] >= 0 <==> NotBefore(StampOf(fs[i]), StampOf(fs[i + 1]))
    {
      DeltaSign(StampOf(fs[i]), StampOf(fs[i + 1]));
    }
  }
}
