/**
 * The byte-level layout of a ttyrec header: three unsigned 32-bit
 * little-endian integers (Python's struct format '<III').
 */
module Wire {
  type byte = b: int | 0 <= b < 256

  const U32_BOUND: int := 0x1_0000_0000

  type u32 = x: int | 0 <= x < 0x1_0000_0000

  /** Size in bytes of a frame header: seconds, microseconds, payload length. */
  const HEADER_SIZE: nat := 12

  function Pow256(n: nat): (r: nat)
    ensures r > 0
  {
    if n == 0 then 1 else 256 * Pow256(n - 1)
  }

  /** The n-byte little-endian encoding of x (the low n bytes of x). */
  function ToLE(x: nat, n: nat): (r: seq<byte>)
    ensures |r| == n
  {
    if n == 0 then [] else [x % 256] + ToLE(x / 256, n - 1)
  }

  /** The number a little-endian byte string denotes. */
  function FromLE(b: seq<byte>): (r: nat)
    ensures r < Pow256(|b|)
  {
    if b == [] then 0 else b[0] + 256 * FromLE(b[1..])
  }

  lemma {:induction false} FromToLE(x: nat, n: nat)
    requires x < Pow256(n)
    ensures FromLE(ToLE(x, n)) == x
  {
    if n > 0 {
      FromToLE(x / 256, n - 1);
      assert ToLE(x, n)[1..] == ToLE(x / 256, n - 1);
    }
  }

  lemma {:induction false} ToFromLE(b: seq<byte>)
    ensures ToLE(FromLE(b), |b|) == b
  {
    if b != [] {
      ToFromLE(b[1..]);
      var v := FromLE(b);
      assert v % 256 == b[0];
      assert v / 256 == FromLE(b[1..]);
      assert b == [b[0]] + b[1..];
    }
  }

  lemma Pow256Four()
    ensures Pow256(4) == U32_BOUND
  {
  }

  datatype Header = Header(sec: u32, usec: u32, len: u32)

  /** struct.pack('<III', sec, usec, len): unpacking it gives back the three fields. */
  function PackHeader(h: Header): (r: seq<byte>)
    ensures |r| == HEADER_SIZE
    ensures UnpackHeader(r) == h
  {
    var r := ToLE(h.sec, 4) + ToLE(h.usec, 4) + ToLE(h.len, 4);
    Pow256Four();
    assert r[0..4] == ToLE(h.sec, 4);
    assert r[4..8] == ToLE(h.usec, 4);
    assert r[8..12] == ToLE(h.len, 4);
    FromToLE(h.sec, 4);
    FromToLE(h.usec, 4);
    FromToLE(h.len, 4);
    r
  }

  /** struct.unpack('<III', b) for a 12-byte b. */
  function UnpackHeader(b: seq<byte>): (h: Header)
    requires |b| == HEADER_SIZE
  {
    Pow256Four();
    Header(FromLE(b[0..4]), FromLE(b[4..8]), FromLE(b[8..12]))
  }

  /** Every 12-byte string is the packing of the header it unpacks to. */
  lemma PackUnpack(b: seq<byte>)
    requires |b| == HEADER_SIZE
    ensures PackHeader(UnpackHeader(b)) == b
  {
    ToFromLE(b[0..4]);
    ToFromLE(b[4..8]);
    ToFromLE(b[8..12]);
    assert b == b[0..4] + b[4..8] + b[8..12];
  }
}
