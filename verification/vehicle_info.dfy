/**
 * The vehicle identification response of ISO 13400-2 (vehicle announcement /
 * identification response payload) and its decoding into a vehicle record.
 */
module VehicleInfo {
  import opened Bytes
  import opened Wrappers
  import opened Codec

  /** Payload offsets and lengths the decoder reads. */
  const VinStart: Byte := 0
  const VinLength: Byte := 17
  const LogicalAddressHigh: nat := 17
  const LogicalAddressLow: nat := 18
  const EidStart: Byte := 19
  const GidStart: Byte := 25
  const EidGidLength: Byte := 6

  /** The shortest payload all of whose reads are in bounds (GID ends at 31). */
  const ResponseLength: nat := 31

  /** A received discovery datagram: the sender's address and the payload bytes. */
  datatype VdMessage = VdMessage(hostIpAddress: string, payload: seq<Byte>)

  /** One discovered diagnostic entity. */
  datatype VehicleAddrInfo = VehicleAddrInfo(
    ipAddress: string,
    logicalAddress: Uint16,
    vin: string,
    eid: string,
    gid: string)

  /**
   * The logical address as the decoder combines it: `((high & 0xFF) << 8) |
   * (low & 0xFF)` cast to 16 bits. On byte values the masks change nothing, the
   * shifted high byte and the low byte occupy disjoint bits so the OR is a sum,
   * and the sum is below 2^16 so the cast does not truncate.
   */
  function CombineLogicalAddress(high: Byte, low: Byte): (a: Uint16)
    ensures a / 0x100 == high && a % 0x100 == low
  {
    high as int * 0x100 + low
  }

  /** `DeserializeVehicleInfoResponse`: the correlation key and the decoded record. */
  function DeserializeVehicleInfoResponse(message: VdMessage): (r: (Uint16, VehicleAddrInfo))
    requires |message.payload| >= ResponseLength
    ensures r.0 == r.1.logicalAddress
    ensures r.0 == message.payload[17] as int * 0x100 + message.payload[18]
    ensures r.1.ipAddress == message.hostIpAddress
    ensures r.1.vin == AsciiChars(message.payload[0..17])
    ensures ParseHexString(r.1.eid) == Some(message.payload[19..25])
    ensures ParseHexString(r.1.gid) == Some(message.payload[25..31])
  {
    var p := message.payload;
    var vin := ConvertToAsciiString(VinStart, VinLength, p);
    var eid := ConvertToHexString(EidStart, EidGidLength, p);
    var gid := ConvertToHexString(GidStart, EidGidLength, p);
    var logicalAddress := CombineLogicalAddress(p[LogicalAddressHigh], p[LogicalAddressLow]);
    HexStringRoundTrip(EidStart, EidGidLength, p);
    HexStringRoundTrip(GidStart, EidGidLength, p);
    AsciiStringRoundTrip(VinStart, VinLength, p);
    (logicalAddress, VehicleAddrInfo(message.hostIpAddress, logicalAddress, vin, eid, gid))
  }

  /** Big-endian 16-bit encoding, the inverse of CombineLogicalAddress. */
  function EncodeUint16(a: Uint16): (bytes: seq<Byte>)
    ensures |bytes| == 2 && CombineLogicalAddress(bytes[0], bytes[1]) == a
  {
    [a / 0x100, a % 0x100]
  }

  /** The fields a record can be written back from: 17 byte-range characters, 6-byte IDs. */
  predicate Serializable(info: VehicleAddrInfo)
  {
    && |info.vin| == 17
    && (forall i :: 0 <= i < |info.vin| ==> info.vin[i] as int < 0x100)
    && ParseHexString(info.eid).Some? && |ParseHexString(info.eid).value| == 6
    && ParseHexString(info.gid).Some? && |ParseHexString(info.gid).value| == 6
  }

  /**
   * Writes a record as a response payload in the same layout: the inverse of
   * the decoder, defined for the records whose fields fit the layout.
   */
  function SerializeVehicleInfoResponse(info: VehicleAddrInfo): (r: Option<seq<Byte>>)
    ensures r.Some? <==> Serializable(info)
    ensures r.Some? ==> |r.value| == ResponseLength
  {
    if !Serializable(info) then None
    else
      Some(AsciiBytes(info.vin) + EncodeUint16(info.logicalAddress)
           + ParseHexString(info.eid).value + ParseHexString(info.gid).value)
  }

  /** The bytes each field of a decoded record writes back to. */
  lemma DecodedFieldBytes(ip: string, payload: seq<Byte>)
    requires |payload| >= ResponseLength
    ensures var info := DeserializeVehicleInfoResponse(VdMessage(ip, payload)).1;
            && Serializable(info)
            && AsciiBytes(info.vin) == payload[0..17]
            && EncodeUint16(info.logicalAddress) == payload[17..19]
            && ParseHexString(info.eid).value == payload[19..25]
            && ParseHexString(info.gid).value == payload[25..31]
  {
    var r := DeserializeVehicleInfoResponse(VdMessage(ip, payload));
    var info := r.1;
    assert info.vin == AsciiChars(payload[0..17]);
    AsciiBytesOfChars(payload[0..17]);
    assert ParseHexString(info.eid) == Some(payload[19..25]);
    assert ParseHexString(info.gid) == Some(payload[25..31]);
    var high: int, low: int := payload[17], payload[18];
    assert info.logicalAddress == high * 0x100 + low;
    assert (high * 0x100 + low) / 0x100 == high && (high * 0x100 + low) % 0x100 == low;
    assert EncodeUint16(info.logicalAddress) == [high, low] == payload[17..19];
  }

  /** Every decoded record can be written back, and gives the payload's first 31 bytes. */
  lemma EncodeDecoded(ip: string, payload: seq<Byte>)
    requires |payload| >= ResponseLength
    ensures SerializeVehicleInfoResponse(DeserializeVehicleInfoResponse(VdMessage(ip, payload)).1)
            == Some(payload[..ResponseLength])
  {
    var info := DeserializeVehicleInfoResponse(VdMessage(ip, payload)).1;
    DecodedFieldBytes(ip, payload);
    assert payload[..ResponseLength]
        == payload[0..17] + payload[17..19] + payload[19..25] + payload[25..31];
  }

  /** Decoding a written record gives the record back, whatever follows the 31 bytes. */
  lemma DecodeEncoded(info: VehicleAddrInfo, trailer: seq<Byte>)
    requires SerializeVehicleInfoResponse(info).Some?
    ensures var p := SerializeVehicleInfoResponse(info).value + trailer;
            DeserializeVehicleInfoResponse(VdMessage(info.ipAddress, p)) == (info.logicalAddress, info)
  {
    var p := SerializeVehicleInfoResponse(info).value + trailer;
    var eid := ParseHexString(info.eid).value;
    var gid := ParseHexString(info.gid).value;
    assert p[0..17] == AsciiBytes(info.vin);
    assert p[17..19] == EncodeUint16(info.logicalAddress);
    assert p[19..25] == eid;
    assert p[25..31] == gid;
    var r := DeserializeVehicleInfoResponse(VdMessage(info.ipAddress, p)).1;
    ParsedIsCanonical(info.eid);
    ParsedIsCanonical(info.gid);
    ParsedIsCanonical(r.eid);
    ParsedIsCanonical(r.gid);
    AsciiCharsOfBytes(info.vin);
    AsciiCharsOfBytes(r.vin);
  }

  /** Bytes 31 onwards of a payload do not affect the decoded record. */
  lemma DecodeIgnoresTrailer(ip: string, payload: seq<Byte>, trailer: seq<Byte>)
    requires |payload| >= ResponseLength
    ensures DeserializeVehicleInfoResponse(VdMessage(ip, payload + trailer))
         == DeserializeVehicleInfoResponse(VdMessage(ip, payload))
  {
    var p := payload + trailer;
    assert p[..ResponseLength] == payload[..ResponseLength];
    EncodeDecoded(ip, p);
    EncodeDecoded(ip, payload);
    var a := DeserializeVehicleInfoResponse(VdMessage(ip, p)).1;
    var b := DeserializeVehicleInfoResponse(VdMessage(ip, payload)).1;
    DecodeEncoded(a, []);
    DecodeEncoded(b, []);
    assert SerializeVehicleInfoResponse(a).value + [] == SerializeVehicleInfoResponse(a).value;
    assert SerializeVehicleInfoResponse(b).value + [] == SerializeVehicleInfoResponse(b).value;
  }

  /** The identification response of a vehicle with logical address 0x0E80. */
  lemma DecodeExample(ip: string)
    ensures var vin := [0x57, 0x56, 0x57, 0x5A, 0x5A, 0x5A, 0x31, 0x4A, 0x5A, 0x58, 0x57,
                        0x30, 0x30, 0x30, 0x30, 0x30, 0x31];
            var payload := vin + [0x0E, 0x80] + [1, 2, 3, 4, 5, 6] + [0x0A, 0x0B, 0x0C, 0x0D, 0x0E, 0x0F];
            var r := DeserializeVehicleInfoResponse(VdMessage(ip, payload));
            && r.0 == 3712 && r.1.logicalAddress == 3712
            && r.1.vin == "WVWZZZ1JZXW000001"
            && ParseHexString(r.1.eid) == Some([0x01, 0x02, 0x03, 0x04, 0x05, 0x06])
            && ParseHexString(r.1.gid) == Some([0x0A, 0x0B, 0x0C, 0x0D, 0x0E, 0x0F])
  {
    var vin: seq<Byte> := [0x57, 0x56, 0x57, 0x5A, 0x5A, 0x5A, 0x31, 0x4A, 0x5A, 0x58, 0x57,
                           0x30, 0x30, 0x30, 0x30, 0x30, 0x31];
    var payload := vin + [0x0E, 0x80] + [1, 2, 3, 4, 5, 6] + [0x0A, 0x0B, 0x0C, 0x0D, 0x0E, 0x0F];
    assert payload[0..17] == vin;
    assert payload[19..25] == [1, 2, 3, 4, 5, 6];
    assert payload[25..31] == [0x0A, 0x0B, 0x0C, 0x0D, 0x0E, 0x0F];
    assert AsciiChars(vin) == "WVWZZZ1JZXW000001";
  }
}
