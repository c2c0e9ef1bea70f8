/**
 * The two byte-range converters of the vehicle-discovery conversation:
 * colon-separated lowercase hexadecimal, and one character per byte.
 */
module Codec {
  import opened Bytes
  import opened Wrappers

  /**
   * How many times the `for` loop of both converters runs. Its counter and its
   * bound are std::uint8_t, so `start + count` is truncated to eight bits before
   * the first comparison.
   */
  function TripCount(start: Byte, count: Byte): (n: nat)
    ensures start + count < 0x100 ==> n == count
    ensures start + count >= 0x100 ==> n == 0
  {
    var bound := (start + count) % 0x100;
    if start < bound then bound - start else 0
  }

  // ---------------------------------------------------------------------------
  // Hexadecimal digits

  predicate IsHexDigit(c: char)
  {
    '0' <= c <= '9' || 'a' <= c <= 'f'
  }

  function HexValue(c: char): (d: nat)
    requires IsHexDigit(c)
    ensures d < 16
  {
    if c <= '9' then c as int - '0' as int else c as int - 'a' as int + 10
  }

  /** The lowercase digit `std::hex` writes for a value below sixteen. */
  function HexDigit(d: nat): (c: char)
    requires d < 16
    ensures IsHexDigit(c) && HexValue(c) == d
  {
    if d < 10 then ('0' as int + d) as char else ('a' as int + d - 10) as char
  }

  /** The value of a string of hexadecimal digits, most significant first. */
  function HexNumber(s: string): (n: nat)
    requires forall i :: 0 <= i < |s| ==> IsHexDigit(s[i])
  {
    if s == [] then 0 else HexNumber(s[..|s| - 1]) * 16 + HexValue(s[|s| - 1])
  }

  /**
   * An int inserted into a stream with `std::hex`: the shortest lowercase
   * digit string of the value, "0" for zero.
   */
  function StreamHex(n: nat): (s: string)
    ensures 1 <= |s|
    ensures forall i :: 0 <= i < |s| ==> IsHexDigit(s[i])
    ensures |s| == 1 <==> n < 16
    ensures n < 0x100 ==> |s| <= 2
    ensures HexNumber(s) == n
  {
    if n < 16 then [HexDigit(n)]
    else
      var s := StreamHex(n / 16) + [HexDigit(n % 16)];
      assert s[..|s| - 1] == StreamHex(n / 16);
      s
  }

  /**
   * One byte as the loop body renders it: a "0" pad when the value is at most
   * 15, then the value in `std::hex`.
   */
  function HexByte(b: Byte): (s: string)
    ensures |s| == 2
    ensures IsHexDigit(s[0]) && IsHexDigit(s[1])
    ensures HexValue(s[0]) * 16 + HexValue(s[1]) == b
  {
    var digits := StreamHex(b);
    var s := (if b <= 15 then "0" else "") + digits;
    assert HexNumber(digits) == b;
    assert HexNumber(s[..1]) == HexValue(s[0]);
    s
  }

  // ---------------------------------------------------------------------------
  // ConvertToHexString

  /** Reference rendering: the two-digit groups joined by ':'. */
  function JoinHex(bytes: seq<Byte>): (s: string)
    requires |bytes| >= 1
    ensures |s| == 3 * |bytes| - 1
    decreases |bytes|
  {
    if |bytes| == 1 then HexByte(bytes[0])
    else HexByte(bytes[0]) + ":" + JoinHex(bytes[1..])
  }

  /** What the loop accumulates: each byte's group followed by ':'. */
  function AppendHexGroups(bytes: seq<Byte>): (s: string)
    ensures |bytes| >= 1 ==> s == JoinHex(bytes) + ":"
    decreases |bytes|
  {
    if bytes == [] then ""
    else
      var init := bytes[..|bytes| - 1];
      var last := bytes[|bytes| - 1];
      if init == [] then
        HexByte(last) + ":"
      else
        JoinHexSnoc(init, last);
        assert init + [last] == bytes;
        AppendHexGroups(init) + HexByte(last) + ":"
  }

  lemma {:induction false} JoinHexSnoc(init: seq<Byte>, last: Byte)
    requires |init| >= 1
    ensures JoinHex(init + [last]) == JoinHex(init) + ":" + HexByte(last)
    decreases |init|
  {
    if |init| == 1 {
      assert (init + [last])[1..] == [last];
    } else {
      assert (init + [last])[1..] == init[1..] + [last];
      JoinHexSnoc(init[1..], last);
    }
  }

  /**
   * `ConvertToHexString(char_start, char_count, input_buffer)`: appends each
   * byte's group and a ':', then drops the last character. The source calls
   * `pop_back` on the result, which is undefined on an empty string, so it
   * needs at least one loop iteration: a non-zero count whose sum with the
   * start does not wrap around eight bits.
   */
  function ConvertToHexString(start: Byte, count: Byte, buffer: seq<Byte>): (s: string)
    requires 1 <= count && start + count < 0x100
    requires start + count <= |buffer|
    ensures s == JoinHex(buffer[start..start + count])
    ensures |s| == 3 * count - 1
    ensures s[|s| - 1] != ':'
  {
    var groups := AppendHexGroups(buffer[start..start + TripCount(start, count)]);
    groups[..|groups| - 1]
  }

  /** Reads back a rendering: two-digit groups separated by single ':'. */
  function ParseHexString(s: string): (r: Option<seq<Byte>>)
    ensures r.Some? ==> |r.value| >= 1
    decreases |s|
  {
    if |s| < 2 || !IsHexDigit(s[0]) || !IsHexDigit(s[1]) then None
    else
      var b := HexValue(s[0]) * 16 + HexValue(s[1]);
      if |s| == 2 then Some([b])
      else if s[2] != ':' then None
      else
        match ParseHexString(s[3..])
        case None => None
        case Some(rest) => Some([b] + rest)
  }

  /** Two renderings of one byte with equal digit values are the same string. */
  lemma HexByteDigits(b: Byte, s: string)
    requires |s| == 2 && IsHexDigit(s[0]) && IsHexDigit(s[1])
    requires HexValue(s[0]) * 16 + HexValue(s[1]) == b
    ensures s == HexByte(b)
  {
    var t := HexByte(b);
    assert HexValue(s[0]) == HexValue(t[0]) && HexValue(s[1]) == HexValue(t[1]);
  }

  /** Parsing the reference rendering gives the bytes back. */
  lemma {:induction false} ParseJoinHex(bytes: seq<Byte>)
    requires |bytes| >= 1
    ensures ParseHexString(JoinHex(bytes)) == Some(bytes)
    decreases |bytes|
  {
    var s := JoinHex(bytes);
    var h := HexByte(bytes[0]);
    assert s[0] == h[0] && s[1] == h[1];
    assert HexValue(s[0]) * 16 + HexValue(s[1]) == bytes[0];
    if |bytes| == 1 {
      assert bytes == [bytes[0]];
    } else {
      assert s[2] == ':';
      assert s[3..] == JoinHex(bytes[1..]);
      ParseJoinHex(bytes[1..]);
      assert [bytes[0]] + bytes[1..] == bytes;
    }
  }

  /** A string that parses is exactly the rendering of what it parses to. */
  lemma {:induction false} ParsedIsCanonical(s: string)
    requires ParseHexString(s).Some?
    ensures JoinHex(ParseHexString(s).value) == s
    decreases |s|
  {
    var bytes := ParseHexString(s).value;
    HexByteDigits(bytes[0], s[..2]);
    if |s| > 2 {
      ParsedIsCanonical(s[3..]);
      assert bytes[1..] == ParseHexString(s[3..]).value;
      assert s == s[..2] + ":" + s[3..];
    }
  }

  /** The hex converter's output parses back to exactly the bytes of the range. */
  lemma HexStringRoundTrip(start: Byte, count: Byte, buffer: seq<Byte>)
    requires 1 <= count && start + count < 0x100
    requires start + count <= |buffer|
    ensures ParseHexString(ConvertToHexString(start, count, buffer)) == Some(buffer[start..start + count])
  {
    ParseJoinHex(buffer[start..start + count]);
  }

  // ---------------------------------------------------------------------------
  // ConvertToAsciiString

  /** What the loop accumulates: one character per byte, in order. */
  function AppendAscii(bytes: seq<Byte>): (s: string)
    ensures |s| == |bytes|
    ensures forall i :: 0 <= i < |bytes| ==> s[i] as int == bytes[i]
    decreases |bytes|
  {
    if bytes == [] then ""
    else AppendAscii(bytes[..|bytes| - 1]) + [bytes[|bytes| - 1] as char]
  }

  /**
   * `ConvertToAsciiString(char_start, char_count, input_buffer)`: each byte
   * of the range becomes the character with that code. When `start + count`
   * wraps around eight bits the loop does not run and the result is empty.
   */
  function ConvertToAsciiString(start: Byte, count: Byte, buffer: seq<Byte>): (s: string)
    requires start + count < 0x100 ==> start + count <= |buffer|
    ensures start + count < 0x100 ==> |s| == count
    ensures start + count >= 0x100 ==> s == ""
    ensures forall i :: 0 <= i < |s| ==> s[i] as int == buffer[start + i]
  {
    if TripCount(start, count) == 0 then ""
    else AppendAscii(buffer[start..start + count])
  }

  /** The byte codes of a string whose characters are all below 256. */
  function AsciiBytes(s: string): (bytes: seq<Byte>)
    requires forall i :: 0 <= i < |s| ==> s[i] as int < 0x100
    ensures |bytes| == |s|
  {
    seq(|s|, i requires 0 <= i < |s| => s[i] as int)
  }

  /** The characters whose codes are the given bytes: the inverse of AsciiBytes. */
  function AsciiChars(bytes: seq<Byte>): (s: string)
    ensures |s| == |bytes|
  {
    seq(|bytes|, i requires 0 <= i < |bytes| => bytes[i] as char)
  }

  /** The ASCII converter loses nothing: its output's codes are the bytes of the range. */
  lemma AsciiStringRoundTrip(start: Byte, count: Byte, buffer: seq<Byte>)
    requires start + count < 0x100 && start + count <= |buffer|
    ensures AsciiBytes(ConvertToAsciiString(start, count, buffer)) == buffer[start..start + count]
    ensures ConvertToAsciiString(start, count, buffer) == AsciiChars(buffer[start..start + count])
  {
  }

  /** Reading the codes of the characters of some bytes gives the bytes. */
  lemma AsciiBytesOfChars(bytes: seq<Byte>)
    ensures forall i :: 0 <= i < |bytes| ==> AsciiChars(bytes)[i] as int < 0x100
    ensures AsciiBytes(AsciiChars(bytes)) == bytes
  {
  }

  /** Converting the codes of a string back to characters gives the string. */
  lemma AsciiCharsOfBytes(s: string)
    requires forall i :: 0 <= i < |s| ==> s[i] as int < 0x100
    ensures AsciiChars(AsciiBytes(s)) == s
  {
  }

  // ---------------------------------------------------------------------------
  // Worked examples

  /** Three bytes rendered: zero padded, lowercase, no trailing separator. */
  lemma HexStringExample()
    ensures ConvertToHexString(0, 3, [0x00, 0x1A, 0xFF]) == "00:1a:ff"
  {
    assert HexByte(0x00) == "00";
    assert HexByte(0x1A) == "1a";
    assert HexByte(0xFF) == "ff";
  }
}
