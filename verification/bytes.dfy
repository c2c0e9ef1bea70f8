/** Fixed-width unsigned integers of the source, as bounded mathematical integers. */
module Bytes {

  /** std::uint8_t */
  type Byte = b: int | 0 <= b < 0x100

  /** std::uint16_t */
  type Uint16 = x: int | 0 <= x < 0x1_0000

  /** std::uint32_t */
  type Uint32 = x: int | 0 <= x < 0x1_0000_0000

  /** The value a std::vector<std::uint8_t> gives to the elements a resize adds. */
  function Zeros(n: nat): (z: seq<Byte>)
    ensures |z| == n
    ensures forall i :: 0 <= i < n ==> z[i] == 0
  {
    seq(n, _ => 0)
  }
}
