/** The Registration Accept message: header, registration result, tracking area list. */
module Registration {
  import opened Octets
  import opened Nas
  import opened TrackingArea

  datatype Access = ThreeGpp | NonThreeGpp | Both | Reserved

  function AccessCode(a: Access): byte {
    match a
    case ThreeGpp => 1
    case NonThreeGpp => 2
    case Both => 3
    case Reserved => 7
  }

  function Bit(b: bool): byte {
    if b then 1 else 0
  }

  datatype RegistrationResult = RegistrationResult(access: Access, sms: bool, nssaa: bool, emergency: bool)

  /** Disjoint fields, so the sum is the original's bitwise or. */
  function ResultOctet(r: RegistrationResult): byte {
    Bit(r.emergency) * 32 + Bit(r.nssaa) * 16 + Bit(r.sms) * 8 + AccessCode(r.access)
  }

  lemma SplitBits(b: byte)
    ensures b / 32 % 2 * 32 + b / 16 % 2 * 16 + b / 8 % 2 * 8 + b % 8 == b % 64
  {
    assert b / 8 / 2 == b / 16 && b / 16 / 2 == b / 32 && b / 8 / 8 == b / 64;
  }

  /** The element keeps what it was set to apart from what it decoded. */
  class ResultElement {
    var setTo: RegistrationResult
    var value: byte
    var sms: byte
    var nssaa: byte
    var emergency: byte

    constructor (r: RegistrationResult)
      ensures setTo == r && Holds(r)
    {
      setTo := r;
      value, sms, nssaa, emergency := AccessCode(r.access), Bit(r.sms), Bit(r.nssaa), Bit(r.emergency);
    }

    /** The decoded fields are those of `r`. */
    ghost predicate Holds(r: RegistrationResult)
      reads this
    {
      value == AccessCode(r.access) && sms == Bit(r.sms) && nssaa == Bit(r.nssaa) && emergency == Bit(r.emergency)
    }

    method CodeLV(data: ByteVector) returns (size: int)
      modifies data
      ensures data.bytes == old(data.bytes) + [1, ResultOctet(setTo)]
      ensures size == 2
    {
      data.PushBack(1);
      size := 1;
      data.PushBack(Bit(setTo.emergency) * 32 + Bit(setTo.nssaa) * 16 + Bit(setTo.sms) * 8 + AccessCode(setTo.access));
      size := size + 1;
    }

    method DecodeLV(data: seq<byte>) returns (r: Outcome<int>)
      requires |data| > 1
      modifies this
      ensures r == if data[0] == 1 then Decoded(2) else Throws
      ensures setTo == old(setTo)
      ensures emergency * 32 + nssaa * 16 + sms * 8 + value == data[1] % 64
      ensures value < 8 && sms < 2 && nssaa < 2 && emergency < 2
    {
      SplitBits(data[1]);
      value := data[1] % 8;
      sms := data[1] / 8 % 2;
      nssaa := data[1] / 16 % 2;
      emergency := data[1] / 32 % 2;
      var size := 1;
      if size != data[0] {
        return Throws;
      }
      r := Decoded(size + 1);
    }

    /** Echoes the length and the six bits it understood. */
    method Decode(data: seq<byte>, out: ByteVector) returns (r: Outcome<int>)
      requires data != [] ==> |data| > 1
      modifies this, out
      ensures data == [] ==> r == Decoded(-1) && out.bytes == old(out.bytes)
      ensures data != [] ==> r == if data[0] == 1 then Decoded(2) else Throws
      ensures setTo == old(setTo)
      ensures out.bytes == if r == Decoded(2) then old(out.bytes) + [1, data[1] % 64] else old(out.bytes)
      ensures data != [] ==> emergency * 32 + nssaa * 16 + sms * 8 + value == data[1] % 64
      ensures data != [] ==> value < 8 && sms < 2 && nssaa < 2 && emergency < 2
    {
      if data == [] {
        return Decoded(-1);
      }
      r := DecodeLV(data);
      if r.Throws? {
        return;
      }
      out.PushBack(1);
      out.PushBack(emergency * 32 + nssaa * 16 + sms * 8 + value);
    }
  }

  /** A message's content. */
  datatype Accept = Accept(security: SecurityHeader, spare: byte, result: RegistrationResult, tai: Ptai)

  function Front(m: Accept): seq<byte> {
    [MOBILITY_MANAGEMENT, m.security, m.spare, REGISTRATION_ACCEPT, 1, ResultOctet(m.result), TAI_LIST, 7]
  }

  lemma Assembled(start: seq<byte>, m: Accept)
    requires Encodable(m.tai)
    ensures start + [MOBILITY_MANAGEMENT] + [m.security, m.spare, REGISTRATION_ACCEPT] + [1, ResultOctet(m.result)]
            + [TAI_LIST, 7] + PtaiBytes(m.tai) == start + AcceptBytes(m)
  {
    assert AcceptBytes(m) == Front(m) + PtaiBytes(m.tai);
  }

  function AcceptBytes(m: Accept): (s: seq<byte>)
    requires Encodable(m.tai)
    ensures |s| >= 9
  {
    Front(m) + PtaiBytes(m.tai)
  }

  /** A buffer that holds everything the decoder reads. It may stop after the result, or after the list's length. */
  predicate AcceptReadable(data: seq<byte>) {
    && |data| > 3
    && (KnownMessageType(data[3]) ==> |data| > 5)
    && (KnownMessageType(data[3]) && data[4] == 1 ==> |data| != 7 && (|data| > 8 ==> Readable(data[8..])))
  }

  predicate AcceptDecodes(data: seq<byte>)
    requires AcceptReadable(data)
  {
    KnownMessageType(data[3]) && data[4] == 1
  }

  /** The count the decoder returns: one short of a buffer that stops before the list. */
  function AcceptCount(data: seq<byte>): nat
    requires AcceptReadable(data) && AcceptDecodes(data)
  {
    if |data| <= 8 then |data| - 1 else 9 + Announced(data[8])
  }

  /** What the decoder writes back after the discriminator. */
  function AcceptEcho(data: seq<byte>): seq<byte>
    requires AcceptReadable(data)
  {
    var header := [SecurityHeaderOf(data[1]), data[2]];
    if !KnownMessageType(data[3]) then header
    else if data[4] != 1 then header + [data[3]]
    else if |data| <= 8 then header + [data[3], data[4], data[5] % 64] + data[6..]
    else Echo(data, AcceptCount(data))[1..]
  }

  /** The list that is decoded from the buffer. */
  predicate ListHolds(data: seq<byte>, list: Ptai)
    requires |data| > 8 && Readable(data[8..])
  {
    Canonical(list) && PtaiBytes(list) == [data[8] % 128] + data[9..9 + Announced(data[8])]
  }

  /** What the decoder writes back of a whole message: the octets consumed, with the security header, the result and the
      list octet reduced to what it understood of them. */
  function Echo(data: seq<byte>, size: nat): seq<byte>
    requires 9 <= size <= |data|
  {
    data[..size][1 := SecurityHeaderOf(data[1])][5 := data[5] % 64][8 := data[8] % 128]
  }

  /** The echo is byte for byte the buffer exactly when those three octets carry nothing the decoder drops. */
  lemma EchoExact(data: seq<byte>, size: nat)
    requires 9 <= size <= |data|
    ensures Echo(data, size) == data[..size] <==> data[1] <= 5 && data[5] < 64 && data[8] < 128
  {
    var e := Echo(data, size);
    assert e[1] == SecurityHeaderOf(data[1]) && e[5] == data[5] % 64 && e[8] == data[8] % 128;
    if data[1] <= 5 && data[5] < 64 && data[8] < 128 {
      assert e == data[..size];
    }
  }

  /** The echo of the header and the result. */
  function FrontEcho(data: seq<byte>): seq<byte>
    requires |data| > 5
  {
    [SecurityHeaderOf(data[1]), data[2], data[3]] + [data[4], data[5] % 64]
  }

  lemma EchoInParts(data: seq<byte>, before: seq<byte>)
    requires AcceptReadable(data) && AcceptDecodes(data)
    ensures |data| <= 8 ==> before + AcceptEcho(data) == before + FrontEcho(data) + data[6..]
    ensures |data| > 8 ==>
      before + AcceptEcho(data)
      == before + FrontEcho(data) + [data[6], data[7]] + ([data[8] % 128] + data[9..AcceptCount(data)])
  {
    if |data| <= 8 {
      assert AcceptEcho(data) == FrontEcho(data) + data[6..];
      Joined(before, FrontEcho(data), data[6..]);
    } else {
      var list := [data[6], data[7]] + ([data[8] % 128] + data[9..AcceptCount(data)]);
      assert AcceptEcho(data) == FrontEcho(data) + list;
      Joined(before, FrontEcho(data), list);
      Joined(before + FrontEcho(data), [data[6], data[7]], [data[8] % 128] + data[9..AcceptCount(data)]);
    }
  }

  lemma EchoOctets(data: seq<byte>, before: seq<byte>)
    requires AcceptReadable(data) && AcceptDecodes(data)
    ensures |data| > 8 ==>
      var front := [if data[1] > 5 then 5 else data[1], data[2], data[3], 1, data[5] % 64, data[6], data[7]];
      before + AcceptEcho(data) == before + front + [data[8] % 128] + data[9..AcceptCount(data)]
  {
    if |data| > 8 {
      var front := [if data[1] > 5 then 5 else data[1], data[2], data[3], 1, data[5] % 64, data[6], data[7]];
      assert AcceptEcho(data) == front + ([data[8] % 128] + data[9..AcceptCount(data)]);
      Joined(before, front, [data[8] % 128] + data[9..AcceptCount(data)]);
      Joined(before + front, [data[8] % 128], data[9..AcceptCount(data)]);
    }
  }

  lemma ShortEchoOctets(data: seq<byte>, before: seq<byte>)
    requires AcceptReadable(data)
    ensures !AcceptDecodes(data) ==>
      before + AcceptEcho(data) == before + [if data[1] > 5 then 5 else data[1], data[2]]
                                   + if KnownMessageType(data[3]) then [data[3]] else []
    ensures AcceptDecodes(data) && |data| <= 8 ==>
      var front := [if data[1] > 5 then 5 else data[1], data[2], data[3], 1, data[5] % 64];
      before + AcceptEcho(data) == before + front + data[6..]
  {
    var header := [if data[1] > 5 then 5 else data[1], data[2]];
    if !AcceptDecodes(data) {
      Joined(before, header, if KnownMessageType(data[3]) then [data[3]] else []);
      NothingAdded(header);
    } else if |data| <= 8 {
      Joined(before, header + [data[3], 1, data[5] % 64], data[6..]);
      assert header + [data[3], 1, data[5] % 64] == [header[0], data[2], data[3], 1, data[5] % 64];
    }
  }

  lemma Joined(a: seq<byte>, b: seq<byte>, c: seq<byte>)
    ensures a + (b + c) == a + b + c
  {
  }

  class RegistrationAccept {
    const header: MobilityHeader
    const result: ResultElement
    const tai: TaiList

    constructor (m: Accept)
      ensures fresh(header) && fresh(result) && fresh(tai) && fresh(tai.list)
      ensures header.security == m.security && header.spare == m.spare && header.messageType == REGISTRATION_ACCEPT
      ensures result.setTo == m.result && tai.list.value == m.tai
    {
      header := new MobilityHeader(m.security, m.spare, REGISTRATION_ACCEPT);
      result := new ResultElement(m.result);
      tai := new TaiList(m.tai);
    }

    /** What the object would encode. */
    ghost function View(): Accept
      reads header, result, tai.list
    {
      Accept(header.security, header.spare, result.setTo, tai.list.value)
    }

    /** Appends exactly the encoding and returns how many bytes that was. */
    method Code(data: ByteVector) returns (size: int)
      requires Encodable(View().tai) && header.messageType == REGISTRATION_ACCEPT
      modifies data
      ensures data.bytes == old(data.bytes) + AcceptBytes(View())
      ensures size == |AcceptBytes(View())|
      ensures var r := result.setTo;
              var octet := (if r.emergency then 32 else 0) + (if r.nssaa then 16 else 0) + (if r.sms then 8 else 0)
                           + match r.access { case ThreeGpp => 1 case NonThreeGpp => 2 case Both => 3
                                              case Reserved => 7 };
              data.bytes == old(data.bytes) + [0x7E, header.security, header.spare, 0x42, 1, octet, 0x54, 7]
                            + PtaiBytes(tai.list.value)
    {
      ghost var start := data.bytes;
      data.PushBack(MOBILITY_MANAGEMENT);
      size := 1;
      var n := header.Code(data);
      size := size + n;
      n := result.CodeLV(data);
      size := size + n;
      n := tai.CodeTLV(data, TAI_LIST);
      size := size + n;
      Assembled(start, View());
    }

    /** The list element, at its place in the whole buffer. */
    method DecodeList(data: seq<byte>, tmp: seq<byte>, out: ByteVector) returns (size: int)
      requires AcceptReadable(data) && AcceptDecodes(data) && tmp == data[6..]
      modifies tai.list, out
      ensures 6 + size == AcceptCount(data)
      ensures |data| <= 8 ==> tai.list.value == old(tai.list.value) && out.bytes == old(out.bytes) + data[6..]
      ensures |data| > 8 ==>
        Canonical(tai.list.value) && PtaiBytes(tai.list.value) == [data[8] % 128] + data[9..6 + size]
      ensures |data| > 8 ==> out.bytes == old(out.bytes) + [data[6], data[7]] + PtaiBytes(tai.list.value)
    {
      if |data| >= 8 {
        assert tmp[2..] == data[8..];
      }
      size := tai.DecodeTLV(tmp, out);
      if |data| > 8 {
        SliceBehind(data, 6, 3, size);
      }
    }

    /** The header and the result, which the buffer's first six octets hold. */
    method DecodeFront(data: seq<byte>, out: ByteVector) returns (r: Outcome<int>)
      requires AcceptReadable(data)
      modifies header, result, out
      ensures r == if AcceptDecodes(data) then Decoded(6) else Throws
      ensures result.setTo == old(result.setTo)
      ensures out.bytes == old(out.bytes) + if r.Decoded? then FrontEcho(data) else AcceptEcho(data)
      ensures r.Decoded? ==> FrontHolds(data)
    {
      r := header.Decode(data, out);
      if r.Throws? {
        return;
      }
      var offset := r.value;
      var tmp := data[offset..];
      ghost var echo := [SecurityHeaderOf(data[1]), data[2], data[3]];
      Joined(old(out.bytes), echo, [data[4], data[5] % 64]);
      r := result.Decode(tmp, out);
      if r.Decoded? {
        r := Decoded(offset + r.value);
      }
    }

    /** What the header and result hold of the buffer they were decoded from. */
    ghost predicate FrontHolds(data: seq<byte>)
      requires |data| > 5
      reads header, result
    {
      && header.security == SecurityHeaderOf(data[1]) && header.spare == data[2] && header.messageType == data[3]
      && result.emergency * 32 + result.nssaa * 16 + result.sms * 8 + result.value == data[5] % 64
      && result.value < 8 && result.sms < 2 && result.nssaa < 2 && result.emergency < 2
    }

    /** Decodes a whole buffer, discriminator included; the caller has echoed the discriminator. */
    method Decode(data: seq<byte>, out: ByteVector) returns (r: Outcome<int>)
      requires AcceptReadable(data)
      modifies header, result, tai.list, out
      ensures r == if AcceptDecodes(data) then Decoded(AcceptCount(data)) else Throws
      ensures result.setTo == old(result.setTo)
      ensures out.bytes == old(out.bytes) + AcceptEcho(data)
      ensures r.Throws? ==>
        out.bytes == old(out.bytes) + [if data[1] > 5 then 5 else data[1], data[2]]
                     + if KnownMessageType(data[3]) then [data[3]] else []
      ensures r.Decoded? && |data| <= 8 ==>
        var front := [if data[1] > 5 then 5 else data[1], data[2], data[3], 1, data[5] % 64];
        r.value == |data| - 1 && out.bytes == old(out.bytes) + front + data[6..]
      ensures r.Decoded? && |data| > 8 ==>
        var front := [if data[1] > 5 then 5 else data[1], data[2], data[3], 1, data[5] % 64, data[6], data[7]];
        out.bytes == old(out.bytes) + front + [data[8] % 128] + data[9..r.value]
      ensures r.Decoded? ==> FrontHolds(data)
      ensures r.Throws? || |data| <= 8 ==> tai.list.value == old(tai.list.value)
      ensures r.Decoded? && |data| > 8 ==> ListHolds(data, tai.list.value)
    {
      r := DecodeFront(data, out);
      if r.Throws? {
        ShortEchoOctets(data, old(out.bytes));
        return;
      }
      var size := DecodeList(data, data[6..], out);
      EchoInParts(data, old(out.bytes));
      EchoOctets(data, old(out.bytes));
      ShortEchoOctets(data, old(out.bytes));
      r := Decoded(r.value + size);
    }
  }

  lemma ResultUnique(r: RegistrationResult, value: byte, sms: byte, nssaa: byte, emergency: byte)
    requires value < 8 && sms < 2 && nssaa < 2 && emergency < 2
    requires emergency * 32 + nssaa * 16 + sms * 8 + value == ResultOctet(r)
    ensures value == AccessCode(r.access) && sms == Bit(r.sms) && nssaa == Bit(r.nssaa)
    ensures emergency == Bit(r.emergency)
  {
  }
}
