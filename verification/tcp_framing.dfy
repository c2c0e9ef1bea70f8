/**
 * The DoIP generic header framing of ISO 13400-2 as the TCP receive path
 * uses it: an 8-byte header whose bytes 4..7 hold the big-endian length of
 * the payload that follows.
 */
module TcpFraming {
  import opened Bytes

  /** `kDoipheadrSize`: protocol version, inverse version, payload type (2), payload length (4). */
  const DoipHeaderSize: nat := 8

  /**
   * The payload length as the receive path computes it: bytes 4..7 each
   * shifted into place, masked and OR-ed into a std::uint32_t. The masks keep
   * exactly the shifted byte and the four parts occupy disjoint bits, so the
   * value is the big-endian reading of the four bytes: the one length a
   * sender would have written as those bytes.
   */
  function PayloadLength(rx: seq<Byte>): (n: Uint32)
    requires |rx| >= DoipHeaderSize
    ensures EncodePayloadLength(n) == rx[4..8]
  {
    BigEndianBytes(rx[4], rx[5], rx[6], rx[7]);
    rx[4] as int * 0x100_0000 + rx[5] as int * 0x1_0000 + rx[6] as int * 0x100 + rx[7]
  }

  /** The four big-endian bytes of a length, as a sender writes header bytes 4..7. */
  function EncodePayloadLength(n: Uint32): (bytes: seq<Byte>)
    ensures |bytes| == 4
  {
    var q1 := n / 0x100;
    var q2 := q1 / 0x100;
    var q3 := q2 / 0x100;
    [q3, q2 % 0x100, q1 % 0x100, n % 0x100]
  }

  /** Dividing `x * 256 + y` by 256, for a byte `y`. */
  lemma DivByteShift(x: nat, y: Byte)
    ensures (x * 0x100 + y) / 0x100 == x && (x * 0x100 + y) % 0x100 == y
  {
  }

  /** Writing a length into a header and reading it back gives the length. */
  lemma LengthRoundTrip(prefix: seq<Byte>, n: Uint32)
    requires |prefix| == 4
    ensures PayloadLength(prefix + EncodePayloadLength(n)) == n
  {
    var q1 := n / 0x100;
    var q2 := q1 / 0x100;
    var q3 := q2 / 0x100;
    assert n == q1 * 0x100 + n % 0x100;
    assert q1 == q2 * 0x100 + q1 % 0x100;
    assert q2 == q3 * 0x100 + q2 % 0x100;
    var h := prefix + EncodePayloadLength(n);
    assert h[4] == q3 && h[5] == q2 % 0x100 && h[6] == q1 % 0x100 && h[7] == n % 0x100;
    calc {
      PayloadLength(h);
      q3 * 0x100_0000 + (q2 % 0x100) * 0x1_0000 + (q1 % 0x100) * 0x100 + n % 0x100;
      (q3 * 0x100 + q2 % 0x100) * 0x1_0000 + (q1 % 0x100) * 0x100 + n % 0x100;
      (q2 * 0x100 + q1 % 0x100) * 0x100 + n % 0x100;
      n;
    }
  }

  /** Four bytes read as a big-endian number and written back are the same four bytes. */
  lemma BigEndianBytes(b4: Byte, b5: Byte, b6: Byte, b7: Byte)
    ensures EncodePayloadLength(b4 as int * 0x100_0000 + b5 as int * 0x1_0000 + b6 as int * 0x100 + b7) == [b4, b5, b6, b7]
  {
    var hi := b4 as int * 0x100 + b5;
    var mid := hi * 0x100 + b6;
    assert b4 as int * 0x100_0000 + b5 as int * 0x1_0000 + b6 as int * 0x100 + b7 == mid * 0x100 + b7;
    DivByteShift(mid, b7);
    DivByteShift(hi, b6);
    DivByteShift(b4, b5);
  }

  /** One framed message: a header whose length field is the payload's size, then the payload. */
  function Frame(prefix: seq<Byte>, payload: seq<Byte>): (f: seq<Byte>)
    requires |prefix| == 4 && |payload| < 0x1_0000_0000
    ensures ValidFrame(f)
    ensures f[..DoipHeaderSize][..4] == prefix && f[DoipHeaderSize..] == payload
  {
    LengthRoundTrip(prefix, |payload|);
    prefix + EncodePayloadLength(|payload|) + payload
  }

  /** A buffer that is exactly one header and the payload its length field announces. */
  predicate ValidFrame(f: seq<Byte>)
  {
    |f| >= DoipHeaderSize && |f| == DoipHeaderSize + PayloadLength(f)
  }

  /** Every well-formed frame is the framing of its own header prefix and payload. */
  lemma ValidFrameIsFrame(f: seq<Byte>)
    requires ValidFrame(f)
    ensures Frame(f[..4], f[DoipHeaderSize..]) == f
  {
    assert f == f[..4] + f[4..8] + f[8..];
  }
}
