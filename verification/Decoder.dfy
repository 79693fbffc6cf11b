/** The message dispatcher, and what decoding an encoding gives back. */
module Decoder {
  import opened Octets
  import opened Nas
  import opened TrackingArea
  import opened Registration
  import opened Authentication
  import opened Session
  import opened SessionElements

  /** A 5GS buffer that holds every octet its decoder reads. */
  predicate DecoderReadable(data: seq<byte>) {
    Is5gs(data) ==>
      && |data| > 3
      && (data[3] == REGISTRATION_ACCEPT ==> AcceptReadable(data))
      && (data[3] == AUTHENTICATION_RESPONSE ==> ParameterReadable(data[4..]))
      && (data[3] == SESSION_ESTABLISHMENT_REQUEST ==> RequestReadable(data))
  }

  /** The types whose decoders are not part of this model: deregistration accepts, authentication failure, identity
      response. */
  predicate Elsewhere(t: byte) {
    t in {0x46, 0x48, 0x59, 0x5C}
  }

  predicate Dispatched(t: byte) {
    t in {REGISTRATION_ACCEPT, AUTHENTICATION_RESPONSE, SESSION_ESTABLISHMENT_REQUEST}
  }

  /** Identifies the message and decodes it into a fresh object, echoing mobility messages into `out`. */
  method Decode(data: seq<byte>, out: ByteVector)
    returns (r: Outcome<int>, accept: RegistrationAccept, auth: AuthenticationResponse, request: SessionRequest)
    requires DecoderReadable(data)
    requires Is5gs(data) ==> !Elsewhere(data[3])
    modifies out
    ensures !(Is5gs(data) && Dispatched(data[3])) ==> r == Throws && out.bytes == old(out.bytes)
    ensures Is5gs(data) && data[3] == SESSION_ESTABLISHMENT_REQUEST ==>
      && out.bytes == old(out.bytes)
      && match DecodedRequest(NOTHING, data)
         case Decoded(m) => r == Decoded(|data|) && request.View() == m
         case Throws => r == Throws
         case Loops => r == Loops
    ensures Is5gs(data) && data[3] == REGISTRATION_ACCEPT ==>
      && r == (if AcceptDecodes(data) then Decoded(AcceptCount(data)) else Throws)
      && out.bytes == old(out.bytes) + [data[0]] + AcceptEcho(data)
      && (r.Decoded? ==> accept.FrontHolds(data))
      && (r.Decoded? && |data| > 8 ==> ListHolds(data, accept.tai.list.value))
    ensures Is5gs(data) && data[3] == AUTHENTICATION_RESPONSE ==> r.Decoded?
    ensures Is5gs(data) && data[3] == AUTHENTICATION_RESPONSE && (|data| == 4 || data[4] == 0) ==>
      r.value == 3 && out.bytes == old(out.bytes) + [data[0]] + [SecurityHeaderOf(data[1]), data[2], data[3]]
    ensures Is5gs(data) && data[3] == AUTHENTICATION_RESPONSE && |data| > 4 && data[4] != 0 ==>
      && auth.parameter.value.length == data[5]
      && (if data[5] < 4 then
            r.value == 3
            && out.bytes == old(out.bytes) + [data[0]] + ([SecurityHeaderOf(data[1])] + data[2..5])
          else
            r.value == 7 + data[5]
            && out.bytes == old(out.bytes) + [data[0]] + ([SecurityHeaderOf(data[1])] + data[2..6 + data[5]])
            && auth.parameter.value.response[..data[5]] == data[6..6 + data[5]])
  {
    accept := new RegistrationAccept(Accept(0, 0, RegistrationResult(ThreeGpp, false, false, false), Blank()));
    auth := new AuthenticationResponse(0, 0, Parameter(0, seq(16, _ => 0)));
    request := new SessionRequest(Request(0, 0, 0, 0, NOTHING));
    var kind := IdentifyMessageType(data);
    if !kind.Decoded? {
      return Throws, accept, auth, request;
    }
    if kind.value == SESSION_ESTABLISHMENT_REQUEST {
      r := request.Decode(data);
    } else if kind.value == REGISTRATION_ACCEPT {
      out.PushBack(data[0]);
      r := accept.Decode(data, out);
    } else if kind.value == AUTHENTICATION_RESPONSE {
      out.PushBack(data[0]);
      r := auth.Decode(data, out);
    } else {
      r := Throws;
    }
  }

  function Blank(): Ptai {
    Ptai(0, 0, seq(16, _ => 0), seq(16, _ => 0), seq(16, _ => 0), seq(16, _ => Tac(0, 0, 0)))
  }

  // Encoding and then decoding.

  lemma AcceptFacts(m: Accept)
    requires Canonical(m.tai)
    ensures var s := AcceptBytes(m);
            && AcceptReadable(s) && AcceptDecodes(s) && Is5gs(s)
            && s[0] == MOBILITY_MANAGEMENT && s[1] == m.security && s[2] == m.spare && s[3] == REGISTRATION_ACCEPT
            && s[4] == 1 && s[5] == ResultOctet(m.result) < 64
            && s[8] == ListOctet(m.tai) < 128 && 9 + Announced(s[8]) == |s|
            && [s[8] % 128] + s[9..9 + Announced(s[8])] == PtaiBytes(m.tai)
  {
    var s := AcceptBytes(m);
    ListOctetUnique(m.tai);
    assert s[8..] == PtaiBytes(m.tai);
    assert s[8..][0] == s[8] && s[9..|s|] == s[9..] == PtaiBytes(m.tai)[1..];
  }

  /** Registration Accept round trip, for every list type and every canonical content: the encoding is identified as
      what it is, and decoding it rebuilds every encoded field, echoes the buffer byte for byte, and returns its
      length. */
  method AcceptRoundTrip(m: Accept)
    returns (wire: seq<byte>, kind: Outcome<byte>, size: int, echo: seq<byte>, back: RegistrationAccept)
    requires Canonical(m.tai)
    ensures wire == AcceptBytes(m) && kind == Nas.Decoded(REGISTRATION_ACCEPT)
    ensures size == |wire| && echo == wire
    ensures back.header.security == m.security && back.header.spare == m.spare
    ensures back.header.messageType == REGISTRATION_ACCEPT
    ensures back.result.Holds(m.result)
    ensures SameShown(m.tai, back.tai.list.value)
  {
    var buffer := new ByteVector([]);
    var message := new RegistrationAccept(m);
    size := message.Code(buffer);
    wire := buffer.bytes;
    assert wire == AcceptBytes(m);
    AcceptFacts(m);
    kind := IdentifyMessageType(wire);
    var out := new ByteVector([]);
    var r, auth, request;
    r, back, auth, request := Decode(wire, out);
    size := r.value;
    echo := out.bytes;
    AcceptEchoes(m);
    ResultUnique(m.result, back.result.value, back.result.sms, back.result.nssaa, back.result.emergency);
    SameBytes(m.tai, back.tai.list.value);
  }

  lemma AcceptEchoes(m: Accept)
    requires Canonical(m.tai)
    ensures var s := AcceptBytes(m);
            AcceptReadable(s) && [] + [s[0]] + AcceptEcho(s) == s
  {
    var s := AcceptBytes(m);
    AcceptFacts(m);
    EchoExact(s, |s|);
    assert s[..|s|] == s && s == [s[0]] + s[1..];
  }

  lemma SameBytes(a: Ptai, b: Ptai)
    requires Canonical(a) && Canonical(b) && PtaiBytes(a) == PtaiBytes(b)
    ensures SameShown(a, b)
  {
    PtaiUnique(a, b, [], []);
  }

  /** Authentication Response: the buffer comes back in the echo exactly when the response has at least four octets.
      Then so do the response octets, and the count returned is the buffer's length plus one; otherwise decoding stops
      after the tag and the count is 3. */
  method AuthenticationRoundTrip(security: SecurityHeader, spare: byte, p: Parameter)
    returns (wire: seq<byte>, kind: Outcome<byte>, size: int, echo: seq<byte>, back: AuthenticationResponse)
    requires p.length <= 16
    ensures wire == ResponseBytes(p) && kind == Nas.Decoded(AUTHENTICATION_RESPONSE)
    ensures echo == wire <==> p.length >= 4
    ensures p.length >= 4 ==>
      size == |wire| + 1 && back.parameter.value.response[..p.length] == p.response[..p.length]
    ensures p.length < 4 ==> size == 3 && echo == wire[..5]
    ensures back.parameter.value.length == p.length
  {
    var buffer := new ByteVector([]);
    var message := new AuthenticationResponse(security, spare, p);
    size := message.Code(buffer);
    wire := buffer.bytes;
    assert wire == ResponseBytes(p);
    ResponseFacts(p);
    kind := IdentifyMessageType(wire);
    var out := new ByteVector([]);
    var r, accept, request;
    r, accept, back, request := Decode(wire, out);
    size := r.value;
    echo := out.bytes;
  }

  lemma ResponseFacts(p: Parameter)
    requires p.length <= 16
    ensures var s := ResponseBytes(p);
            && s[0] == MOBILITY_MANAGEMENT && s[3] == AUTHENTICATION_RESPONSE
            && s[4] == RESPONSE_PARAMETER && s[5] == p.length && |s| == 6 + p.length
            && s[4..][0] == s[4] && s[4..][1] == s[5]
            && s[6..6 + p.length] == p.response[..p.length]
            && [] + [s[0]] + ([SecurityHeaderOf(s[1])] + s[2..5]) == s[..5]
            && [] + [s[0]] + ([SecurityHeaderOf(s[1])] + s[2..6 + p.length]) == s
  {
  }

  /** PDU Session Establishment Request: everything but the transaction identity comes back, and the whole buffer is
      consumed. */
  method RequestTrip(m: Request)
    returns (wire: seq<byte>, kind: Outcome<byte>, size: int, echo: seq<byte>, back: SessionRequest)
    requires ShortContainer(m.options)
    ensures wire == RequestBytes(m) && kind == Nas.Decoded(SESSION_ESTABLISHMENT_REQUEST)
    ensures size == |wire| && echo == []
    ensures back.View() == m.(transaction := SESSION_ESTABLISHMENT_REQUEST)
  {
    var buffer := new ByteVector([]);
    var message := new SessionRequest(m);
    size := message.Code(buffer);
    wire := buffer.bytes;
    assert wire == RequestBytes(m);
    RequestRoundTrip(m);
    kind := IdentifyMessageType(wire);
    var out := new ByteVector([]);
    var r, accept, auth;
    r, accept, auth, back := Decode(wire, out);
    size := r.value;
    echo := out.bytes;
  }
}
