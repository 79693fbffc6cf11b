/** The PDU Session Establishment Request: header, data rates, and a loop over optional elements in any order. */
module Session {
  import opened Octets
  import opened Nas

  type SessionId = b: byte | b <= 16
  type Rate = b: byte | b in {0, 255} witness 0
  type SessionType = b: byte | b in {1, 2, 3, 4, 5, 7} witness 1
  type SscMode = b: byte | 1 <= b <= 6 witness 1

  /** A container short enough for its length octet. */
  type Short = s: seq<byte> | |s| <= 255

  const SESSION_TYPE: byte := 0x90
  const SSC_MODE: byte := 0xA0
  const CONTAINER: byte := 0x39

  function SessionIdOf(b: byte): SessionId {
    if b > 16 then 16 else b
  }

  function RateOf(b: byte): Rate {
    if b == 255 then 255 else 0
  }

  // Optional elements, one at a time.

  datatype Ie = TypeIe(sessionType: SessionType) | SscIe(mode: SscMode) | ContainerIe(container: Short)

  function IeBytes(ie: Ie): (s: seq<byte>)
    ensures s != []
  {
    match ie
    case TypeIe(t) => [SESSION_TYPE + t]
    case SscIe(m) => [SSC_MODE + m]
    case ContainerIe(c) => [CONTAINER, |c|] + c
  }

  function IesBytes(ies: seq<Ie>): seq<byte> {
    if ies == [] then [] else IeBytes(ies[0]) + IesBytes(ies[1..])
  }

  /** What the message holds of them: the last of each kind. */
  datatype Options = Options(sessionType: Option<SessionType>, mode: Option<SscMode>, container: Option<seq<byte>>)

  const NOTHING: Options := Options(None, None, None)

  function Set(o: Options, ie: Ie): Options {
    match ie
    case TypeIe(t) => o.(sessionType := Some(t))
    case SscIe(m) => o.(mode := Some(m))
    case ContainerIe(c) => o.(container := Some(c))
  }

  function SetAll(o: Options, ies: seq<Ie>): Options
    decreases |ies|
  {
    if ies == [] then o else SetAll(Set(o, ies[0]), ies[1..])
  }

  /** The element identifier: half an octet above 0x90, a whole one otherwise. */
  function Iei(b: byte): byte {
    if b > 0x90 then b / 16 * 16 else b
  }

  /** What a buffer begins with. `Refused`: a value its element does not have. `Unknown`: an identifier the loop does
      not know, on which it never advances. `Overrun`: a container announced longer than the buffer. */
  datatype Head = Known(ie: Ie) | Refused | Unknown | Overrun

  function HeadOf(s: seq<byte>): (h: Head)
    requires s != []
    ensures h.Known? ==> IeBytes(h.ie) <= s
    ensures h.Unknown? <==> Iei(s[0]) !in {SESSION_TYPE, SSC_MODE, CONTAINER}
  {
    var v := s[0] % 16;
    match Iei(s[0])
    case 0x90 => if v in {1, 2, 3, 4, 5, 7} then Known(TypeIe(v)) else Refused
    case 0xA0 => if 1 <= v <= 6 then Known(SscIe(v)) else Refused
    case 0x39 => if |s| > 1 && |s| - 2 >= s[1] then Known(ContainerIe(s[2..][..s[1]])) else Overrun
    case _ => Unknown
  }

  datatype Parsed = Ies(ies: seq<Ie>) | Failed(head: Head) {
    function Behind(ie: Ie): Parsed {
      if Ies? then Ies([ie] + ies) else this
    }

    function BehindAll(before: seq<Ie>): Parsed {
      if Ies? then Ies(before + ies) else this
    }

    lemma BehindFirst(before: seq<Ie>)
      ensures before == [] ==> BehindAll(before) == this
      ensures before != [] ==> BehindAll(before) == BehindAll(before[1..]).Behind(before[0])
    {
      if Ies? && before != [] {
        assert before + ies == [before[0]] + (before[1..] + ies);
      }
    }
  }

  /** The elements a buffer holds, or why it does not hold only elements. */
  function Parse(s: seq<byte>): Parsed
    decreases |s|
  {
    if s == [] then Ies([])
    else
      var h := HeadOf(s);
      if h.Known? then Parse(s[|IeBytes(h.ie)|..]).Behind(h.ie) else Failed(h)
  }

  lemma ParseOne(ie: Ie, rest: seq<byte>)
    ensures Parse(IeBytes(ie) + rest) == Parse(rest).Behind(ie)
  {
    var s := IeBytes(ie) + rest;
    assert HeadOf(s) == Known(ie) by {
      if ie.ContainerIe? {
        assert s[2..][..|ie.container|] == ie.container;
      }
    }
    assert s[|IeBytes(ie)|..] == rest;
  }

  lemma {:induction false} ParseComplete(ies: seq<Ie>, rest: seq<byte>)
    ensures Parse(IesBytes(ies) + rest) == Parse(rest).BehindAll(ies)
  {
    Parse(rest).BehindFirst(ies);
    if ies == [] {
      assert IesBytes(ies) + rest == rest;
    } else {
      var more := IesBytes(ies[1..]) + rest;
      assert IesBytes(ies) + rest == IeBytes(ies[0]) + more;
      ParseOne(ies[0], more);
      ParseComplete(ies[1..], rest);
    }
  }

  /** Every buffer splits into known elements and a rest that is empty or begins with none. */
  lemma {:induction false} Split(s: seq<byte>) returns (ies: seq<Ie>, rest: seq<byte>)
    ensures s == IesBytes(ies) + rest
    ensures if rest == [] then Parse(s) == Ies(ies) else !HeadOf(rest).Known? && Parse(s) == Failed(HeadOf(rest))
    decreases |s|
  {
    if s == [] || !HeadOf(s).Known? {
      ies, rest := [], s;
      assert [] + s == s;
    } else {
      var ie := HeadOf(s).ie;
      var more := s[|IeBytes(ie)|..];
      ies, rest := Split(more);
      assert s == IeBytes(ie) + more;
      ConsIes(ie, ies, rest);
      ies := [ie] + ies;
    }
  }

  lemma ConsIes(ie: Ie, ies: seq<Ie>, rest: seq<byte>)
    ensures IesBytes([ie] + ies) + rest == IeBytes(ie) + (IesBytes(ies) + rest)
  {
    assert ([ie] + ies)[1..] == ies;
  }

  /** The loop comes to its end on a buffer exactly when the buffer is a sequence of known elements, in any order and
      with any repetition, and then those are the elements it sets, in that order. */
  lemma ParseExact(s: seq<byte>, ies: seq<Ie>)
    ensures Parse(s) == Ies(ies) <==> s == IesBytes(ies)
  {
    assert Parse([]) == Ies([]);
    if s == IesBytes(ies) {
      ParseComplete(ies, []);
      assert IesBytes(ies) + [] == s && ies + [] == ies;
    }
    if Parse(s) == Ies(ies) {
      var found, rest := Split(s);
      assert IesBytes(found) + [] == IesBytes(found);
    }
  }

  /** It runs forever exactly when, after some known elements, it meets an identifier it does not know. */
  lemma StuckExact(s: seq<byte>)
    ensures Parse(s) == Failed(Unknown) <==>
      exists ies, rest ::
        s == IesBytes(ies) + rest && rest != [] && Iei(rest[0]) !in {SESSION_TYPE, SSC_MODE, CONTAINER}
  {
    if Parse(s) == Failed(Unknown) {
      var ies, rest := Split(s);
      assert s == IesBytes(ies) + rest;
    }
    forall ies, rest | s == IesBytes(ies) + rest && rest != []
                       && Iei(rest[0]) !in {SESSION_TYPE, SSC_MODE, CONTAINER}
      ensures Parse(s) == Failed(Unknown)
    {
      ParseComplete(ies, rest);
    }
  }

  // Order.

  ghost predicate DistinctKinds(ies: seq<Ie>) {
    forall i, j :: 0 <= i < j < |ies| ==> !SameKind(ies[i], ies[j])
  }

  predicate SameKind(a: Ie, b: Ie) {
    (a.TypeIe? && b.TypeIe?) || (a.SscIe? && b.SscIe?) || (a.ContainerIe? && b.ContainerIe?)
  }

  /** What is set afterwards, said without an order. */
  ghost predicate SetBy(o: Options, ies: seq<Ie>, r: Options) {
    && (forall t: SessionType :: TypeIe(t) in ies ==> r.sessionType == Some(t))
    && (forall m: SscMode :: SscIe(m) in ies ==> r.mode == Some(m))
    && (forall c: Short :: ContainerIe(c) in ies ==> r.container == Some(c))
    && ((forall t: SessionType :: TypeIe(t) !in ies) ==> r.sessionType == o.sessionType)
    && ((forall m: SscMode :: SscIe(m) !in ies) ==> r.mode == o.mode)
    && ((forall c: Short :: ContainerIe(c) !in ies) ==> r.container == o.container)
  }

  lemma {:induction false} SetAllSets(o: Options, ies: seq<Ie>)
    requires DistinctKinds(ies)
    ensures SetBy(o, ies, SetAll(o, ies))
    decreases |ies|
  {
    if ies != [] {
      var first, rest := ies[0], ies[1..];
      SetAllSets(Set(o, first), rest);
      assert forall ie :: ie in ies <==> ie == first || ie in rest;
      assert forall ie :: ie in rest ==> !SameKind(first, ie);
    }
  }

  lemma {:induction false} AtMostOnce(ies: seq<Ie>, ie: Ie)
    requires DistinctKinds(ies)
    ensures multiset(ies)[ie] <= 1
    decreases |ies|
  {
    if ies != [] {
      assert ies == [ies[0]] + ies[1..];
      AtMostOnce(ies[1..], ie);
      assert ies[0] !in ies[1..];
    }
  }

  lemma Twice(ies: seq<Ie>, i: nat, j: nat)
    requires i < j < |ies| && ies[i] == ies[j]
    ensures multiset(ies)[ies[i]] >= 2
  {
    assert ies == ies[..j] + ies[j..];
    assert ies[i] == ies[..j][i] && ies[j] == ies[j..][0];
    assert ies[i] in ies[..j] && ies[i] in ies[j..];
  }

  lemma PermutedKinds(a: seq<Ie>, b: seq<Ie>)
    requires DistinctKinds(a) && multiset(a) == multiset(b)
    ensures DistinctKinds(b)
  {
    forall i, j | 0 <= i < j < |b|
      ensures !SameKind(b[i], b[j])
    {
      assert b[i] in multiset(b) && b[j] in multiset(b);
      assert b[i] in a && b[j] in a;
      if b[i] == b[j] {
        AtMostOnce(a, b[i]);
        Twice(b, i, j);
      }
    }
  }

  lemma PermutedSet(o: Options, a: seq<Ie>, b: seq<Ie>)
    requires DistinctKinds(a)
    requires multiset(a) == multiset(b)
    ensures SetAll(o, a) == SetAll(o, b)
  {
    PermutedKinds(a, b);
    SetAllSets(o, a);
    SetAllSets(o, b);
    assert forall ie :: ie in a <==> ie in multiset(a);
    assert forall ie :: ie in b <==> ie in multiset(b);
    var x, y := SetAll(o, a), SetAll(o, b);
    if t: SessionType :| TypeIe(t) in a {
      assert x.sessionType == Some(t) == y.sessionType;
    }
    if m: SscMode :| SscIe(m) in a {
      assert x.mode == Some(m) == y.mode;
    }
    if c: Short :| ContainerIe(c) in a {
      assert x.container == Some(c) == y.container;
    }
  }

  // Messages.

  datatype Request = Request(session: SessionId, transaction: byte, uplink: Rate, downlink: Rate, options: Options)

  /** The optional part as encoded: type, mode, container. The length octet keeps the length's low eight bits. */
  function OptionBytes(o: Options): seq<byte> {
    (if o.sessionType.Some? then [SESSION_TYPE + o.sessionType.value] else [])
    + (if o.mode.Some? then [SSC_MODE + o.mode.value] else [])
    + (if o.container.Some? then [CONTAINER, |o.container.value| % 256] + o.container.value else [])
  }

  function RequestBytes(m: Request): seq<byte> {
    [SESSION_MANAGEMENT, m.session, m.transaction, SESSION_ESTABLISHMENT_REQUEST, m.uplink, m.downlink]
    + OptionBytes(m.options)
  }

  /** The encoding, octet by octet: uplink before downlink, then the elements in the order type, mode, container. */
  lemma RequestOctets(before: seq<byte>, m: Request)
    ensures before + RequestBytes(m)
         == before + [0x2E, m.session, m.transaction, 0xC1, m.uplink, m.downlink]
            + (if m.options.sessionType.Some? then [0x90 + m.options.sessionType.value] else [])
            + (if m.options.mode.Some? then [0xA0 + m.options.mode.value] else [])
            + (if m.options.container.Some? then [0x39, |m.options.container.value| % 256] + m.options.container.value
               else [])
  {
    var front := [0x2E, m.session, m.transaction, 0xC1, m.uplink, m.downlink];
    var a := if m.options.sessionType.Some? then [0x90 + m.options.sessionType.value] else [];
    var b := if m.options.mode.Some? then [0xA0 + m.options.mode.value] else [];
    var c := if m.options.container.Some?
             then [0x39, |m.options.container.value| % 256] + m.options.container.value else [];
    assert RequestBytes(m) == front + (a + b + c);
    FlatParts(before, front, a, b, c);
  }

  lemma FlatParts(before: seq<byte>, front: seq<byte>, a: seq<byte>, b: seq<byte>, c: seq<byte>)
    ensures before + (front + (a + b + c)) == before + front + a + b + c
  {
  }

  /** What a message with the options `o` becomes on decoding a buffer. The transaction identity is read from the octet
      after its own, which holds the message type. */
  function DecodedRequest(o: Options, data: seq<byte>): Outcome<Request>
    requires RequestReadable(data)
  {
    if !KnownMessageType(data[3]) then Throws
    else
      match Parse(data[6..])
      case Ies(ies) =>
        Decoded(Request(SessionIdOf(data[1]), data[3], RateOf(data[4]), RateOf(data[5]), SetAll(o, ies)))
      case Failed(Unknown) => Loops
      case Failed(_) => Throws
  }

  predicate RequestReadable(data: seq<byte>) {
    |data| > 3 && (KnownMessageType(data[3]) ==> |data| >= 6 && Parse(data[6..]) != Failed(Overrun))
  }

  /** The elements an encoding consists of. */
  function OptionIes(o: Options): seq<Ie>
    requires o.container.Some? ==> |o.container.value| <= 255
  {
    (if o.sessionType.Some? then [TypeIe(o.sessionType.value)] else [])
    + (if o.mode.Some? then [SscIe(o.mode.value)] else [])
    + (if o.container.Some? then [ContainerIe(o.container.value)] else [])
  }

  /** Every permutation of distinct elements decodes to the same message. */
  lemma OrderIrrelevant(o: Options, front: seq<byte>, a: seq<Ie>, b: seq<Ie>)
    requires |front| == 6 && DistinctKinds(a) && multiset(a) == multiset(b)
    ensures RequestReadable(front + IesBytes(a)) && RequestReadable(front + IesBytes(b))
    ensures DecodedRequest(o, front + IesBytes(a)) == DecodedRequest(o, front + IesBytes(b))
  {
    assert (front + IesBytes(a))[6..] == IesBytes(a) && (front + IesBytes(b))[6..] == IesBytes(b);
    ParseExact(IesBytes(a), a);
    ParseExact(IesBytes(b), b);
    PermutedSet(o, a, b);
  }

  predicate ShortContainer(o: Options) {
    o.container.Some? ==> |o.container.value| <= 255
  }

  lemma {:induction false} IesBytesAppend(a: seq<Ie>, b: seq<Ie>)
    ensures IesBytes(a + b) == IesBytes(a) + IesBytes(b)
  {
    if a == [] {
      assert a + b == b;
    } else {
      assert (a + b)[1..] == a[1..] + b;
      IesBytesAppend(a[1..], b);
    }
  }

  lemma OneIe(ie: Ie)
    ensures IesBytes([ie]) == IeBytes(ie)
  {
    assert IeBytes(ie) + [] == IeBytes(ie);
  }

  lemma OptionBytesAreIes(o: Options)
    requires ShortContainer(o)
    ensures IesBytes(OptionIes(o)) == OptionBytes(o)
  {
    var a := if o.sessionType.Some? then [TypeIe(o.sessionType.value)] else [];
    var b := if o.mode.Some? then [SscIe(o.mode.value)] else [];
    var c := if o.container.Some? then [ContainerIe(o.container.value)] else [];
    IesBytesAppend(a + b, c);
    IesBytesAppend(a, b);
    AtMostOneIe(a);
    AtMostOneIe(b);
    AtMostOneIe(c);
  }

  lemma AtMostOneIe(ies: seq<Ie>)
    requires |ies| <= 1
    ensures IesBytes(ies) == if ies == [] then [] else IeBytes(ies[0])
  {
    if ies != [] {
      OneIe(ies[0]);
    }
  }

  lemma SetOptionIes(o: Options)
    requires ShortContainer(o)
    ensures SetAll(NOTHING, OptionIes(o)) == o
  {
    var ies := OptionIes(o);
    SetAllSets(NOTHING, ies);
  }

  lemma {:induction false} SetAllShort(o: Options, ies: seq<Ie>)
    requires ShortContainer(o)
    ensures ShortContainer(SetAll(o, ies))
    decreases |ies|
  {
    if ies != [] {
      SetAllShort(Set(o, ies[0]), ies[1..]);
    }
  }

  /** A fresh message that decodes at all has a container that fits its length octet. */
  lemma DecodedIsShort(data: seq<byte>)
    requires RequestReadable(data)
    ensures DecodedRequest(NOTHING, data).Decoded? ==> ShortContainer(DecodedRequest(NOTHING, data).value.options)
  {
    if KnownMessageType(data[3]) && Parse(data[6..]).Ies? {
      SetAllShort(NOTHING, Parse(data[6..]).ies);
    }
  }

  /** Round trip for every subset of optional elements: everything comes back but the transaction identity, which comes
      back as the message type octet. */
  lemma RequestRoundTrip(m: Request)
    requires ShortContainer(m.options)
    ensures RequestReadable(RequestBytes(m))
    ensures DecodedRequest(NOTHING, RequestBytes(m)) == Decoded(m.(transaction := SESSION_ESTABLISHMENT_REQUEST))
  {
    assert RequestBytes(m)[6..] == OptionBytes(m.options);
    OptionBytesAreIes(m.options);
    ParseExact(OptionBytes(m.options), OptionIes(m.options));
    SetOptionIes(m.options);
  }

  /** Exactly when decoding undoes encoding. */
  lemma RequestRoundTripExact(m: Request)
    ensures (RequestReadable(RequestBytes(m)) && DecodedRequest(NOTHING, RequestBytes(m)) == Decoded(m))
        <==> m.transaction == SESSION_ESTABLISHMENT_REQUEST && ShortContainer(m.options)
  {
    if ShortContainer(m.options) {
      RequestRoundTrip(m);
    } else if RequestReadable(RequestBytes(m)) {
      DecodedIsShort(RequestBytes(m));
    }
  }
}
