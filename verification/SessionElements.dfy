/** The objects of the PDU Session Establishment Request: its optional elements and the message itself. */
module SessionElements {
  import opened Octets
  import opened Nas
  import opened Session

  class SessionTypeElement {
    var present: bool
    var value: SessionType

    constructor (v: Option<SessionType>)
      ensures present == v.Some? && (present ==> value == v.value)
    {
      present := v.Some?;
      value := if v.Some? then v.value else 1;
    }

    ghost function View(): Option<SessionType>
      reads this
    {
      if present then Some(value) else None
    }

    method CodeTV(data: ByteVector, iei: byte) returns (size: int)
      modifies data
      ensures data.bytes == old(data.bytes) + [iei / 16 * 16 + value]
      ensures size == 1
    {
      data.PushBack(iei / 16 * 16 + value);
      size := 1;
    }

    method DecodeTV(data: seq<byte>, iei: byte) returns (r: Outcome<int>)
      modifies this
      ensures r.Decoded? <==>
        data != [] && iei % 16 == 0 && data[0] / 16 * 16 == iei && data[0] % 16 in {1, 2, 3, 4, 5, 7}
      ensures r.Decoded? ==> r.value == 1 && View() == Some(data[0] % 16)
      ensures !r.Decoded? ==> r == Throws && View() == old(View())
    {
      if data == [] || iei % 16 != 0 || data[0] / 16 * 16 != iei {
        return Throws;
      }
      var v := data[0] % 16;
      if v !in {1, 2, 3, 4, 5, 7} {
        return Throws;
      }
      value, present := v, true;
      r := Decoded(1);
    }
  }

  class SscModeElement {
    var present: bool
    var value: SscMode

    constructor (v: Option<SscMode>)
      ensures present == v.Some? && (present ==> value == v.value)
    {
      present := v.Some?;
      value := if v.Some? then v.value else 1;
    }

    ghost function View(): Option<SscMode>
      reads this
    {
      if present then Some(value) else None
    }

    method CodeTV(data: ByteVector, iei: byte) returns (size: int)
      modifies data
      ensures data.bytes == old(data.bytes) + [iei / 16 * 16 + value]
      ensures size == 1
    {
      data.PushBack(iei / 16 * 16 + value);
      size := 1;
    }

    method DecodeTV(data: seq<byte>, iei: byte) returns (r: Outcome<int>)
      modifies this
      ensures r.Decoded? <==> data != [] && iei % 16 == 0 && data[0] / 16 * 16 == iei && 1 <= data[0] % 16 <= 6
      ensures r.Decoded? ==> r.value == 1 && View() == Some(data[0] % 16)
      ensures !r.Decoded? ==> r == Throws && View() == old(View())
    {
      if data == [] || iei % 16 != 0 {
        return Throws;
      }
      var v := data[0] % 16;
      if data[0] / 16 * 16 != iei {
        return Throws;
      }
      if !(1 <= v <= 6) {
        return Throws;
      }
      value, present := v, true;
      r := Decoded(1);
    }
  }

  class StringElement {
    var present: bool
    var value: seq<byte>

    constructor (v: Option<seq<byte>>)
      ensures present == v.Some? && (present ==> value == v.value)
    {
      present := v.Some?;
      value := if v.Some? then v.value else [];
    }

    ghost function View(): Option<seq<byte>>
      reads this
    {
      if present then Some(value) else None
    }

    /** Appends the whole value behind a length octet that keeps only eight bits of its length. */
    method CodeTLV(data: ByteVector, iei: byte) returns (size: int)
      modifies data
      ensures data.bytes == old(data.bytes) + ([iei, |value| % 256] + value)
      ensures size == 2 + |value|
    {
      data.PushBack(iei);
      data.PushBack(|value| % 256);
      for i := 0 to |value|
        invariant data.bytes == old(data.bytes) + [iei, |value| % 256] + value[..i]
      {
        data.PushBack(value[i]);
      }
      size := 1 + 1 + |value|;
    }

    method DecodeTLV(data: seq<byte>, iei: byte) returns (r: Outcome<int>)
      requires data != []
      requires data[0] == iei ==> |data| > 1 && |data| - 2 >= data[1]
      modifies this
      ensures r == if data[0] == iei then Decoded(2 + data[1] as int) else Throws
      ensures r.Decoded? ==> View() == Some(data[2..][..data[1]])
      ensures !r.Decoded? ==> View() == old(View())
    {
      if data[0] != iei {
        return Throws;
      }
      var size: int := data[1];
      value := [];
      for index := 2 to 2 + size
        invariant value == data[2..][..index - 2]
      {
        value := value + [data[index]];
      }
      present := true;
      r := Decoded(size + 2);
    }
  }

  class SessionRequest {
    var session: SessionId
    var transaction: byte
    var messageType: byte
    var uplink: Rate
    var downlink: Rate
    const sessionType: SessionTypeElement
    const mode: SscModeElement
    const container: StringElement

    constructor (m: Request)
      ensures fresh(sessionType) && fresh(mode) && fresh(container)
      ensures View() == m && messageType == SESSION_ESTABLISHMENT_REQUEST
    {
      session, transaction, messageType := m.session, m.transaction, SESSION_ESTABLISHMENT_REQUEST;
      uplink, downlink := m.uplink, m.downlink;
      sessionType := new SessionTypeElement(m.options.sessionType);
      mode := new SscModeElement(m.options.mode);
      container := new StringElement(m.options.container);
    }

    ghost function OptionsView(): Options
      reads sessionType, mode, container
    {
      Options(sessionType.View(), mode.View(), container.View())
    }

    ghost function View(): Request
      reads this, sessionType, mode, container
    {
      Request(session, transaction, uplink, downlink, OptionsView())
    }

    method CodeOptions(data: ByteVector) returns (size: int)
      modifies data
      ensures data.bytes == old(data.bytes) + OptionBytes(OptionsView())
      ensures size == |OptionBytes(OptionsView())|
    {
      size := 0;
      var n;
      if sessionType.present {
        n := sessionType.CodeTV(data, SESSION_TYPE);
        size := size + n;
      }
      if mode.present {
        n := mode.CodeTV(data, SSC_MODE);
        size := size + n;
      }
      if container.present {
        n := container.CodeTLV(data, CONTAINER);
        size := size + n;
      }
    }

    /** Appends exactly the encoding and returns how many bytes that was. */
    method Code(data: ByteVector) returns (size: int)
      requires messageType == SESSION_ESTABLISHMENT_REQUEST
      modifies data
      ensures data.bytes == old(data.bytes) + RequestBytes(View())
      ensures size == |RequestBytes(View())|
      ensures data.bytes == old(data.bytes) + [0x2E, session, transaction, 0xC1, uplink, downlink]
                            + (if sessionType.present then [0x90 + sessionType.value] else [])
                            + (if mode.present then [0xA0 + mode.value] else [])
                            + (if container.present then [0x39, |container.value| % 256] + container.value else [])
    {
      data.PushBack(SESSION_MANAGEMENT);
      data.PushBack(session);
      data.PushBack(transaction);
      data.PushBack(messageType);
      data.PushBack(uplink);
      data.PushBack(downlink);
      SixPushed(old(data.bytes), SESSION_MANAGEMENT, session, transaction, messageType, uplink, downlink);
      size := 6;
      var n := CodeOptions(data);
      size := size + n;
      Grouped(old(data.bytes), [SESSION_MANAGEMENT, session, transaction, messageType, uplink, downlink],
              OptionBytes(OptionsView()));
      RequestOctets(old(data.bytes), View());
    }

    /** The header, with the transaction identity read one octet late. */
    method DecodeHeader(data: seq<byte>) returns (r: Outcome<int>)
      requires |data| > 3
      modifies this
      ensures r == if KnownMessageType(data[3]) then Decoded(4) else Throws
      ensures session == SessionIdOf(data[1]) == (if data[1] > 16 then 16 else data[1])
      ensures transaction == data[3]
      ensures r.Decoded? ==> messageType == data[3]
    {
      var offset := 1;
      var size := offset;
      var tmp := data;
      tmp := tmp[size..];
      session := SessionIdOf(data[offset]);
      size := 1;
      offset := offset + size;
      tmp := tmp[size..];
      transaction := data[offset + 1];
      offset := offset + size;
      tmp := tmp[size..];
      if !KnownMessageType(tmp[0]) {
        return Throws;
      }
      messageType := tmp[0];
      offset := offset + size;
      r := Decoded(offset);
    }

    /** One turn of the loop. On an identifier it does not know it stays where it is. */
    method DecodeElement(ieData: seq<byte>) returns (r: Outcome<int>)
      requires ieData != [] && HeadOf(ieData) != Overrun
      modifies sessionType, mode, container
      ensures var h, was := HeadOf(ieData), old(OptionsView());
              match h
              case Known(ie) => r == Decoded(|IeBytes(ie)|) && OptionsView() == Set(was, ie)
              case Unknown => r == Decoded(0) && OptionsView() == was
              case _ => r == Throws && OptionsView() == was
      ensures var b := ieData[0];
              if b / 16 == 9 && b % 16 in {1, 2, 3, 4, 5, 7} then
                r == Decoded(1) && sessionType.View() == Some(b % 16)
              else if b / 16 == 10 && 1 <= b % 16 <= 6 then r == Decoded(1) && mode.View() == Some(b % 16)
              else if b == 0x39 then
                && |ieData| > 1 && |ieData| - 2 >= ieData[1] && r == Decoded(2 + ieData[1] as int)
                && container.View() == Some(ieData[2..2 + ieData[1] as int])
              else if b / 16 in {9, 10} then r == Throws
              else r == Decoded(0)
    {
      var iei := ieData[0];
      if iei > 0x90 {
        iei := iei / 16 * 16;
      }
      match iei
      case 0x90 => r := sessionType.DecodeTV(ieData, iei);
      case 0xA0 => r := mode.DecodeTV(ieData, iei);
      case 0x39 =>
        SliceBehind(ieData, 2, 0, ieData[1]);
        r := container.DecodeTLV(ieData, iei);
      case _ => r := Decoded(0);
    }

    /** The optional elements from `start` on. Known elements make the loop advance; on any other identifier the
        original loops forever, which is reported. */
    method DecodeOptions(data: seq<byte>, start: nat) returns (r: Outcome<int>)
      requires start <= |data| && !Overruns(data[start..])
      modifies sessionType, mode, container
      ensures match Parse(data[start..])
              case Ies(ies) => r == Decoded(|data|) && OptionsView() == SetAll(old(OptionsView()), ies)
              case Failed(Unknown) => r == Loops
              case Failed(_) => r == Throws
    {
      ghost var done, rest;
      r, done, rest := Loop(data, start);
      LoopEnds(data[start..], r, done, rest);
    }

    /** The octets from `start` to `offset` spell the elements `done`, and those have been set. */
    ghost predicate Passed(was: Options, data: seq<byte>, start: nat, offset: nat, done: seq<Ie>)
      requires start <= offset <= |data|
      reads sessionType, mode, container
    {
      data[start..offset] == IesBytes(done) && OptionsView() == SetAll(was, done)
    }

    /** One turn: over a known element, or nowhere. */
    method Turn(data: seq<byte>, offset: nat, ghost was: Options, ghost start: nat, ghost done: seq<Ie>)
      returns (r: Outcome<int>, ghost done': seq<Ie>)
      requires start <= offset < |data| && !Overruns(data[start..]) && Passed(was, data, start, offset, done)
      modifies sessionType, mode, container
      ensures !r.Loops? && (r.Decoded? ==> r.value >= 0 && offset + r.value <= |data|)
      ensures Passed(was, data, start, if r.Decoded? then offset + r.value else offset, done')
      ensures !(r.Decoded? && r.value > 0) ==> EndedBefore(data[offset..], if r.Throws? then Throws else Loops)
    {
      SplitBehind(data, start, offset);
      NoOverrun(data[start..], done, data[offset..]);
      r := DecodeElement(data[offset..]);
      done' := done;
      if r.Decoded? && r.value > 0 {
        ghost var ie := HeadOf(data[offset..]).ie;
        PassOver(data, start, offset, done, ie);
        SetLast(was, done, ie);
        done' := done + [ie];
      }
    }

    /** The loop itself: it passes over the elements `done` and stops before `rest`. */
    method Loop(data: seq<byte>, start: nat) returns (r: Outcome<int>, ghost done: seq<Ie>, ghost rest: seq<byte>)
      requires start <= |data| && !Overruns(data[start..])
      modifies sessionType, mode, container
      ensures OptionsView() == SetAll(old(OptionsView()), done)
      ensures data[start..] == IesBytes(done) + rest && EndedBefore(rest, r)
      ensures r.Decoded? ==> r.value == |data|
    {
      var offset := start;
      ghost var was := OptionsView();
      done := [];
      r := Decoded(0);
      while offset < |data|
        invariant start <= offset <= |data| && r.Decoded?
        invariant Passed(was, data, start, offset, done)
        decreases |data| - offset
      {
        r, done := Turn(data, offset, was, start, done);
        if r.Throws? || r.value == 0 {
          break;
        }
        offset := offset + r.value;
      }
      SplitBehind(data, start, offset);
      rest := data[offset..];
      r := if r.Throws? then Throws else if offset < |data| then Loops else Decoded(offset);
    }

    /** Decodes a whole buffer. */
    method Decode(data: seq<byte>) returns (r: Outcome<int>)
      requires RequestReadable(data)
      modifies this, sessionType, mode, container
      ensures match DecodedRequest(old(OptionsView()), data)
              case Decoded(m) => r == Decoded(|data|) && View() == m && messageType == data[3]
              case Throws => r == Throws
              case Loops => r == Loops
      ensures r.Decoded? ==>
        && session == (if data[1] > 16 then 16 else data[1]) && transaction == messageType == data[3]
        && uplink == (if data[4] == 255 then 255 else 0) && downlink == (if data[5] == 255 then 255 else 0)
    {
      r := DecodeHeader(data);
      if r.Throws? {
        return;
      }
      var offset := r.value;
      var rates := data[offset..offset + 2];
      uplink := RateOf(rates[0]);
      downlink := RateOf(rates[1]);
      offset := offset + 2;
      r := DecodeOptions(data, offset);
    }
  }

  ghost predicate Overruns(s: seq<byte>) {
    Parse(s) == Failed(Overrun)
  }

  lemma NoOverrun(s: seq<byte>, done: seq<Ie>, rest: seq<byte>)
    requires s == IesBytes(done) + rest && rest != [] && !Overruns(s)
    ensures HeadOf(rest) != Overrun
  {
    ParseComplete(done, rest);
  }

  lemma PassOver(data: seq<byte>, start: nat, offset: nat, done: seq<Ie>, ie: Ie)
    requires start <= offset <= |data| && data[start..offset] == IesBytes(done) && IeBytes(ie) <= data[offset..]
    ensures var next := offset + |IeBytes(ie)|;
            next <= |data| && data[start..next] == IesBytes(done + [ie])
  {
    PrefixBehind(data, start, offset, IeBytes(ie));
    OneIe(ie);
    IesBytesAppend(done, [ie]);
  }

  /** How the loop may end: at the end of the buffer, or before an element it refuses or does not know. */
  predicate EndedBefore(rest: seq<byte>, r: Outcome<int>) {
    if rest == [] then r.Decoded?
    else match HeadOf(rest)
         case Refused => r.Throws?
         case Unknown => r.Loops?
         case _ => false
  }

  lemma LoopEnds(s: seq<byte>, r: Outcome<int>, done: seq<Ie>, rest: seq<byte>)
    requires s == IesBytes(done) + rest && EndedBefore(rest, r)
    ensures match Parse(s)
            case Ies(ies) => r.Decoded? && ies == done
            case Failed(Unknown) => r.Loops?
            case Failed(_) => r.Throws?
  {
    ParseComplete(done, rest);
    assert done + [] == done;
  }

  lemma SixPushed(s: seq<byte>, a: byte, b: byte, c: byte, d: byte, e: byte, f: byte)
    ensures s + [a] + [b] + [c] + [d] + [e] + [f] == s + [a, b, c, d, e, f]
  {
  }

  lemma Grouped(before: seq<byte>, header: seq<byte>, options: seq<byte>)
    ensures before + header + options == before + (header + options)
  {
  }

  lemma {:induction false} SetLast(o: Options, ies: seq<Ie>, ie: Ie)
    ensures SetAll(o, ies + [ie]) == Set(SetAll(o, ies), ie)
    decreases |ies|
  {
    if ies != [] {
      assert (ies + [ie])[1..] == ies[1..] + [ie];
      SetLast(Set(o, ies[0]), ies[1..], ie);
    }
  }
}
