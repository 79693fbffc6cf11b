/** What the NAS codec's messages share: the vectors they append to, the protocol discriminator and message type
    octets, and the header of mobility management messages. */
module Nas {
  import opened Octets

  /** A `std::vector<uint8_t>` passed by reference. */
  class ByteVector {
    var bytes: seq<byte>

    constructor (initial: seq<byte>)
      ensures bytes == initial
    {
      bytes := initial;
    }

    method PushBack(b: byte)
      modifies this
      ensures bytes == old(bytes) + [b]
    {
      bytes := bytes + [b];
    }
  }

  datatype Outcome<+T> = Decoded(value: T) | Throws | Loops

  const SESSION_MANAGEMENT: byte := 0x2E
  const MOBILITY_MANAGEMENT: byte := 0x7E

  const REGISTRATION_ACCEPT: byte := 0x42
  const AUTHENTICATION_RESPONSE: byte := 0x57
  const SESSION_ESTABLISHMENT_REQUEST: byte := 0xC1

  /** The octets that convert to a message type. The authentication reject octet, 0x58, is not among them. */
  predicate KnownMessageType(b: byte) {
    || 0x41 <= b <= 0x48 || 0x4C <= b <= 0x4E
    || 0x54 <= b <= 0x57 || 0x59 <= b <= 0x5F
    || 0x64 <= b <= 0x68
    || 0xC1 <= b <= 0xC3 || 0xC5 <= b <= 0xC7 || 0xC9 <= b <= 0xCD || b == 0xD6
  }

  /** The discriminator is one of the two 5GS ones. Everything else is turned away before the type is looked at. */
  predicate Is5gs(data: seq<byte>) {
    data != [] && data[0] in {SESSION_MANAGEMENT, MOBILITY_MANAGEMENT}
  }

  /** A 5GS message is expected to reach its type octet. */
  method IdentifyMessageType(data: seq<byte>) returns (r: Outcome<byte>)
    requires Is5gs(data) ==> |data| > 3
    ensures r.Decoded? <==> Is5gs(data) && KnownMessageType(data[3])
    ensures r.Decoded? <==>
      && data != [] && data[0] in {0x2E, 0x7E}
      && data[3] in {0x41, 0x42, 0x43, 0x44, 0x45, 0x46, 0x47, 0x48, 0x4C, 0x4D, 0x4E, 0x54, 0x55, 0x56, 0x57, 0x59,
                     0x5A, 0x5B, 0x5C, 0x5D, 0x5E, 0x5F, 0x64, 0x65, 0x66, 0x67, 0x68, 0xC1, 0xC2, 0xC3, 0xC5, 0xC6,
                     0xC7, 0xC9, 0xCA, 0xCB, 0xCC, 0xCD, 0xD6}
    ensures r.Decoded? ==> r.value == data[3]
    ensures !r.Loops?
  {
    var tmp: seq<byte> := [];
    if data == [] {
      return Throws;
    }
    if data[0] == SESSION_MANAGEMENT {
      tmp := tmp + [data[3]];
      if !KnownMessageType(tmp[0]) {
        return Throws;
      }
    }
    if data[0] == SESSION_MANAGEMENT || data[0] == MOBILITY_MANAGEMENT {
      tmp := tmp + [data[3]];
      if !KnownMessageType(tmp[0]) {
        return Throws;
      }
      return Decoded(tmp[0]);
    }
    return Throws;
  }

  /** The security header values: five kinds, and one that stands for all the rest. */
  type SecurityHeader = b: byte | b <= 5

  function SecurityHeaderOf(b: byte): SecurityHeader {
    if b > 5 then 5 else b
  }

  /** The header information elements of a mobility management message. */
  class MobilityHeader {
    var security: SecurityHeader
    var spare: byte
    var messageType: byte

    constructor (security: SecurityHeader, spare: byte, messageType: byte)
      ensures this.security == security && this.spare == spare && this.messageType == messageType
    {
      this.security, this.spare, this.messageType := security, spare, messageType;
    }

    method Code(data: ByteVector) returns (size: int)
      modifies data
      ensures data.bytes == old(data.bytes) + [security, spare, messageType]
      ensures size == 3
    {
      size := 0;
      data.PushBack(security);
      size := size + 1;
      data.PushBack(spare);
      size := size + 1;
      data.PushBack(messageType);
      size := size + 1;
    }

    /** Reads the three octets after the discriminator and echoes what it made of them. */
    method Decode(data: seq<byte>, out: ByteVector) returns (r: Outcome<int>)
      requires data != [] ==> |data| > 3
      modifies this, out
      ensures data == [] ==> r == Decoded(-1) && out.bytes == old(out.bytes)
      ensures data != [] ==> r == if KnownMessageType(data[3]) then Decoded(4) else Throws
      ensures data != [] ==> security == SecurityHeaderOf(data[1]) == (if data[1] > 5 then 5 else data[1])
      ensures data != [] ==> spare == data[2]
      ensures data != [] && r.Throws? ==>
        messageType == old(messageType) && out.bytes == old(out.bytes) + [SecurityHeaderOf(data[1]), data[2]]
      ensures data != [] && r.Decoded? ==>
        && messageType == data[3]
        && out.bytes == old(out.bytes) + [SecurityHeaderOf(data[1]), data[2], data[3]]
    {
      var offset := 1;
      var size := offset;
      if data == [] {
        return Decoded(-1);
      }
      var tmp := data;
      security := SecurityHeaderOf(data[1]);
      out.PushBack(security);
      offset := offset + size;
      spare := data[2];
      out.PushBack(spare);
      offset := offset + size;
      tmp := tmp[offset..];
      if !KnownMessageType(tmp[0]) {
        return Throws;
      }
      messageType := tmp[0];
      out.PushBack(messageType);
      offset := offset + size;
      r := Decoded(offset);
    }
  }
}
