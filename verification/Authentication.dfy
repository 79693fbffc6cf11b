/** The Authentication Response message: header and response parameter. */
module Authentication {
  import opened Octets
  import opened Nas
  import opened TrackingArea

  const RESPONSE_PARAMETER: byte := 0x2D

  /** The fixed-size struct of the parameter. */
  datatype Parameter = Parameter(length: byte, response: Octets16)

  function ParameterBytes(p: Parameter): seq<byte>
    requires p.length <= 16
  {
    [RESPONSE_PARAMETER, p.length] + p.response[..p.length]
  }

  function ResponseBytes(p: Parameter): seq<byte>
    requires p.length <= 16
  {
    [MOBILITY_MANAGEMENT, 0, 0, AUTHENTICATION_RESPONSE] + ParameterBytes(p)
  }

  /** The parameter is there as far as the decoder reads it, and fits the object. */
  predicate ParameterReadable(data: seq<byte>) {
    data != [] && data[0] != 0 ==>
      && |data| > 1
      && (data[1] >= 4 ==> data[1] <= 16 && |data| >= 2 + data[1])
  }

  class ResponseParameter {
    var value: Parameter

    constructor (value: Parameter)
      ensures this.value == value
    {
      this.value := value;
    }

    method CodeTLV(data: ByteVector, iei: byte) returns (size: int)
      requires value.length <= 16
      modifies data
      ensures iei == 0 ==> size == -1 && data.bytes == old(data.bytes)
      ensures iei != 0 ==>
        && size == 2 + value.length
        && data.bytes == old(data.bytes) + [iei, value.length] + value.response[..value.length]
    {
      if iei <= 0 {
        return -1;
      }
      data.PushBack(iei);
      size := 1;
      data.PushBack(value.length);
      size := size + 1;
      for i := 0 to value.length
        invariant size == 2 + i
        invariant data.bytes == old(data.bytes) + [iei, value.length] + value.response[..i]
      {
        data.PushBack(value.response[i]);
        size := size + 1;
      }
    }

    /** The count returned is one more than what was read; a response shorter than four octets is refused after its
        tag has been echoed. */
    method DecodeTLV(data: seq<byte>, out: ByteVector) returns (size: int)
      requires ParameterReadable(data)
      modifies this, out
      ensures data == [] || data[0] == 0 ==> size == -1 && out.bytes == old(out.bytes) && value == old(value)
      ensures data != [] && data[0] != 0 ==> value.length == data[1]
      ensures data != [] && data[0] != 0 && data[1] < 4 ==>
        size == -1 && out.bytes == old(out.bytes) + data[..1] && value.response == old(value).response
      ensures data != [] && data[0] != 0 && data[1] >= 4 ==>
        && size == data[1] + 3
        && out.bytes == old(out.bytes) + data[..2 + data[1]]
        && value.response == data[2..2 + data[1]] + old(value).response[data[1]..]
    {
      if data == [] {
        return -1;
      }
      if data[0] <= 0 {
        return -1;
      }
      out.PushBack(data[0]);
      size := 1;
      value := value.(length := data[1]);
      if value.length < 4 {
        return -1;
      }
      out.PushBack(data[1]);
      size := size + 1;
      for i := 0 to value.length
        invariant size == 2 + i
        invariant value.length == data[1]
        invariant value.response == data[2..2 + i] + old(value).response[i..]
        invariant out.bytes == old(out.bytes) + data[..2 + i]
      {
        value := value.(response := value.response[i := data[i + 2]]);
        out.PushBack(data[i + 2]);
        size := size + 1;
      }
      size := size + 1;
    }
  }

  class AuthenticationResponse {
    const header: MobilityHeader
    const parameter: ResponseParameter

    /** The security header and spare octet passed in are not used: the header keeps its defaults. */
    constructor (security: SecurityHeader, spare: byte, p: Parameter)
      ensures fresh(header) && fresh(parameter)
      ensures header.security == 0 && header.spare == 0 && header.messageType == AUTHENTICATION_RESPONSE
      ensures parameter.value == p
    {
      header := new MobilityHeader(0, 0, AUTHENTICATION_RESPONSE);
      parameter := new ResponseParameter(p);
    }

    method Code(data: ByteVector) returns (size: int)
      requires header.security == 0 && header.spare == 0 && header.messageType == AUTHENTICATION_RESPONSE
      requires parameter.value.length <= 16
      modifies data
      ensures data.bytes == old(data.bytes) + ResponseBytes(parameter.value)
      ensures size == |ResponseBytes(parameter.value)|
      ensures var p := parameter.value;
              data.bytes == old(data.bytes) + [0x7E, 0, 0, 0x57, 0x2D, p.length] + p.response[..p.length]
    {
      data.PushBack(MOBILITY_MANAGEMENT);
      size := 1;
      var n := header.Code(data);
      size := size + n;
      n := parameter.CodeTLV(data, RESPONSE_PARAMETER);
      size := size + n;
      assert data.bytes == old(data.bytes) + ResponseBytes(parameter.value);
    }

    method Decode(data: seq<byte>, out: ByteVector) returns (r: Outcome<int>)
      requires |data| > 3 && (KnownMessageType(data[3]) ==> ParameterReadable(data[4..]))
      modifies header, parameter, out
      ensures r.Decoded? <==> KnownMessageType(data[3])
      ensures !r.Loops?
      ensures header.security == SecurityHeaderOf(data[1]) && header.spare == data[2]
      ensures header.messageType == if r.Decoded? then data[3] else old(header.messageType)
      ensures r.Throws? ==>
        parameter.value == old(parameter.value) && out.bytes == old(out.bytes) + [SecurityHeaderOf(data[1]), data[2]]
      ensures r.Decoded? && (|data| == 4 || data[4] == 0) ==>
        && r.value == 3 && parameter.value == old(parameter.value)
        && out.bytes == old(out.bytes) + [SecurityHeaderOf(data[1]), data[2], data[3]]
      ensures r.Decoded? && |data| > 4 && data[4] != 0 ==> parameter.value.length == data[5]
      ensures r.Decoded? && |data| > 4 && data[4] != 0 && data[5] < 4 ==>
        && r.value == 3 && parameter.value.response == old(parameter.value).response
        && out.bytes == old(out.bytes) + [SecurityHeaderOf(data[1])] + data[2..5]
      ensures r.Decoded? && |data| > 4 && data[4] != 0 && data[5] >= 4 ==>
        && r.value == 7 + data[5]
        && out.bytes == old(out.bytes) + [SecurityHeaderOf(data[1])] + data[2..6 + data[5]]
        && parameter.value.response == data[6..6 + data[5]] + old(parameter.value).response[data[5]..]
    {
      r := header.Decode(data, out);
      if r.Throws? {
        return;
      }
      var offset := r.value;
      var tmp := data[offset..];
      var size := parameter.DecodeTLV(tmp, out);
      if |data| > 4 && data[4] != 0 {
        if data[5] < 4 {
          assert data[2..5] == data[2..4] + tmp[..1];
        } else {
          assert data[2..6 + data[5]] == data[2..4] + tmp[..2 + data[5]];
          assert data[6..6 + data[5]] == tmp[2..2 + data[5]];
        }
      }
      r := Decoded(offset + size);
    }
  }
}
