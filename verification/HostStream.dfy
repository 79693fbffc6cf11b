/** The host's six-state response receiver as a function of the byte stream. */
module HostStream {
  import opened Octets
  import opened Matcher
  import opened Frames

  datatype Phase = Header | Status | Length | Ids | Data | Footer

  /** The receiver's locals and the packet it fills. `payload` is the part of the packet's data the frame has filled. */
  datatype Rx = Rx(phase: Phase, index: nat, status: i16, reserved: i16, length: u32, group: u16, unit: u16,
                   payload: seq<byte>)

  /** Fresh locals and a cleared packet: how every call of the receive routine starts. */
  const START: Rx := Rx(Header, 0, 0, 0, 0, 0, 0, [])

  ghost predicate Valid(rx: Rx) {
    match rx.phase
    case Header => rx.index < 4 && rx.payload == []
    case Status => rx.index == 1 && rx.payload == []
    case Length => rx.index == 1 && rx.payload == []
    case Ids => rx.index <= 1 && rx.payload == []
    case Data => rx.index == 0 && rx.payload == [] && rx.length > 0
    case Footer => rx.index < 4 && |rx.payload| == rx.length <= CAPACITY
  }

  function Need(rx: Rx): nat {
    match rx.phase
    case Header => 1
    case Status => 4
    case Length => 4
    case Ids => 2
    case Data => rx.length
    case Footer => 1
  }

  predicate Ready(rx: Rx, input: seq<byte>) {
    && Need(rx) <= |input|
    && (rx.phase.Data? ==> rx.length <= CAPACITY)
  }

  datatype Turned = More(rx: Rx) | Received(response: Response)

  /** One turn of the receive loop on exactly the bytes it reads. */
  function Turn(rx: Rx, chunk: seq<byte>): (t: Turned)
    requires Valid(rx) && |chunk| == Need(rx) && Ready(rx, chunk)
    ensures t.More? ==> Valid(t.rx)
  {
    match rx.phase
    case Header =>
      var j := Advance(RESPONSE_HEADER, rx.index, chunk[0]);
      More(if j >= 4 then rx.(phase := Status, index := 1) else rx.(index := j))
    case Status =>
      More(rx.(phase := Length, status := Signed16(FromWire16(chunk[..2])),
               reserved := Signed16(FromWire16(chunk[2..]))))
    case Length => More(rx.(phase := Ids, length := FromWire32(chunk)))
    case Ids =>
      if rx.index > 0 then More(rx.(group := FromWire16(chunk), index := 0))
      else More(rx.(unit := FromWire16(chunk), phase := if rx.length != 0 then Data else Footer))
    case Data => More(rx.(phase := Footer, index := 0, payload := chunk))
    case Footer =>
      var j := Advance(RESPONSE_FOOTER, rx.index, chunk[0]);
      if j >= 4 then Received(Response(rx.status, rx.group, rx.unit, rx.payload))
      else More(rx.(index := j))
  }

  datatype Outcome = Got(response: Response, used: nat) | Starved {
    /** The same outcome of a call that had already read `n` bytes. */
    function After(n: nat): Outcome {
      match this
      case Got(r, used) => Got(r, n + used)
      case Starved => Starved
    }
  }

  /** One call of the receive routine when no read times out before the bytes run out. */
  function Run(rx: Rx, input: seq<byte>): (r: Outcome)
    requires Valid(rx)
    ensures r.Got? ==> 0 < r.used <= |input|
    decreases |input|
  {
    if !Ready(rx, input) then Starved
    else
      var n := Need(rx);
      var t := Turn(rx, input[..n]);
      if t.More? then Run(t.rx, input[n..]).After(n) else Got(t.response, n)
  }

  function Receive(input: seq<byte>): Outcome {
    Run(START, input)
  }

  lemma RunTurn(rx: Rx, chunk: seq<byte>, rest: seq<byte>)
    requires Valid(rx) && |chunk| == Need(rx) && Ready(rx, chunk)
    ensures var t := Turn(rx, chunk);
            Run(rx, chunk + rest) == if t.More? then Run(t.rx, rest).After(|chunk|) else Got(t.response, |chunk|)
  {
    assert (chunk + rest)[..|chunk|] == chunk && (chunk + rest)[|chunk|..] == rest;
  }

  /** A response received needs no more than the bytes it used: what arrives later cannot change it, and on any
      shorter prefix the call is still waiting. */
  lemma {:induction false} RunPrefix(rx: Rx, a: seq<byte>, b: seq<byte>)
    requires Valid(rx)
    ensures Run(rx, a).Got? ==> Run(rx, a + b) == Run(rx, a)
    ensures Run(rx, a + b).Got? && Run(rx, a + b).used <= |a| ==> Run(rx, a) == Run(rx, a + b)
    decreases |a|
  {
    if Ready(rx, a) {
      var n := Need(rx);
      assert (a + b)[..n] == a[..n] && (a + b)[n..] == a[n..] + b;
      var t := Turn(rx, a[..n]);
      if t.More? {
        RunPrefix(t.rx, a[n..], b);
      }
    }
  }

  lemma {:induction false} HeaderRun(rx: Rx, s: seq<byte>)
    requires Valid(rx) && rx.phase.Header?
    ensures match Scanning(RESPONSE_HEADER, rx.index, s)
            case Found(n) => Run(rx, s) == Run(rx.(phase := Status, index := 1), s[n..]).After(n)
            case Pending(_) => Run(rx, s) == Starved
    decreases |s|
  {
    if s != [] {
      var t := Turn(rx, s[..1]);
      if t.rx.phase.Header? {
        HeaderRun(t.rx, s[1..]);
      }
    }
  }

  lemma {:induction false} FooterRun(rx: Rx, s: seq<byte>)
    requires Valid(rx) && rx.phase.Footer?
    ensures match Scanning(RESPONSE_FOOTER, rx.index, s)
            case Found(n) => Run(rx, s) == Got(Response(rx.status, rx.group, rx.unit, rx.payload), n)
            case Pending(_) => Run(rx, s) == Starved
    decreases |s|
  {
    if s != [] {
      var t := Turn(rx, s[..1]);
      if t.More? {
        FooterRun(t.rx, s[1..]);
      }
    }
  }

  /** The ids and the payload take the receiver from the id state to the footer state. */
  lemma IdsRun(rx: Rx, group: u16, unit: u16, payload: Payload, rest: seq<byte>)
    requires Valid(rx) && rx.phase.Ids? && rx.index == 1 && rx.length == |payload|
    ensures var ids := Wire16(group) + Wire16(unit) + payload;
            var full := rx.(phase := Footer, index := 0, group := group, unit := unit, payload := payload);
            Run(rx, ids + rest) == Run(full, rest).After(|ids|)
  {
    var gid, uid := Wire16(group), Wire16(unit);
    NetworkOrder16(group, gid);
    NetworkOrder16(unit, uid);
    assert gid + uid + payload + rest == gid + (uid + (payload + rest));
    RunTurn(rx, gid, uid + (payload + rest));
    var rx1 := Turn(rx, gid).rx;
    RunTurn(rx1, uid, payload + rest);
    var rx2 := Turn(rx1, uid).rx;
    if payload == [] {
      assert payload + rest == rest;
    } else {
      RunTurn(rx2, payload, rest);
    }
  }

  lemma GroupBody(sts: seq<byte>, len: seq<byte>, group: seq<byte>, unit: seq<byte>, payload: seq<byte>,
                  rest: seq<byte>)
    ensures sts + len + group + unit + payload + rest == sts + (len + (group + unit + payload + rest))
  {
  }

  /** A frame's body, with any reserved field, takes the receiver from the status state to the footer state. */
  lemma BodyRun(rx: Rx, r: Response, reserved: seq<byte>, rest: seq<byte>)
    requires Valid(rx) && rx.phase.Status? && |reserved| == 2
    ensures var body := Wire16(Bits16(r.status)) + reserved + Wire32(|r.payload|) + Wire16(r.group)
                        + Wire16(r.unit) + r.payload;
            var full := Rx(Footer, 0, r.status, Signed16(FromWire16(reserved)), |r.payload|, r.group, r.unit,
                           r.payload);
            Run(rx, body + rest) == Run(full, rest).After(|body|)
  {
    var sts, len := Wire16(Bits16(r.status)) + reserved, Wire32(|r.payload|);
    var ids := Wire16(r.group) + Wire16(r.unit) + r.payload;
    GroupBody(sts, len, Wire16(r.group), Wire16(r.unit), r.payload, rest);
    StatusRun(rx, r.status, reserved, len + (ids + rest));
    var rx1 := rx.(phase := Length, status := r.status, reserved := Signed16(FromWire16(reserved)));
    NetworkOrder32(|r.payload|, len);
    RunTurn(rx1, len, ids + rest);
    IdsRun(rx1.(phase := Ids, length := |r.payload|), r.group, r.unit, r.payload, rest);
  }

  lemma StatusRun(rx: Rx, status: i16, reserved: seq<byte>, rest: seq<byte>)
    requires Valid(rx) && rx.phase.Status? && |reserved| == 2
    ensures var next := rx.(phase := Length, status := status, reserved := Signed16(FromWire16(reserved)));
            Run(rx, Wire16(Bits16(status)) + reserved + rest) == Run(next, rest).After(4)
  {
    var bits := Wire16(Bits16(status));
    var sts := bits + reserved;
    NetworkOrder16(Bits16(status), bits);
    SignRoundTrip(status);
    assert sts[..2] == bits && sts[2..] == reserved;
    RunTurn(rx, sts, rest);
  }

  /** Response round trip: after any junk with no response header in it, a framed response is received with the same
      status, ids and payload, and the call reads exactly the junk and the frame. */
  lemma ResponseRoundTrip(junk: seq<byte>, r: Response, rest: seq<byte>)
    requires Absent(RESPONSE_HEADER, junk)
    ensures Receive(junk + ResponseFrame(r) + rest) == Got(r, |junk| + |ResponseFrame(r)|)
  {
    DelimitersAreDistinct();
    var tail := RESPONSE_FOOTER + rest;
    var s := junk + ResponseFrame(r) + rest;
    assert s == junk + RESPONSE_HEADER + (ResponseBody(r) + tail);
    AfterJunk(RESPONSE_HEADER, junk, ResponseBody(r) + tail);
    HeaderRun(START, s);
    assert s[|junk| + 4..] == ResponseBody(r) + tail;
    BodyRun(START.(phase := Status, index := 1), r, Wire16(0), tail);
    Synchronises(RESPONSE_FOOTER, 0, rest);
    FooterRun(Rx(Footer, 0, r.status, Signed16(FromWire16(Wire16(0))), |r.payload|, r.group, r.unit, r.payload),
              tail);
  }

  /** While any of the frame's bytes is missing the call is still waiting. */
  lemma IncompleteStarves(junk: seq<byte>, r: Response, n: nat)
    requires Absent(RESPONSE_HEADER, junk)
    requires n < |junk| + |ResponseFrame(r)|
    ensures Receive((junk + ResponseFrame(r))[..n]).Starved?
  {
    var s := junk + ResponseFrame(r);
    ResponseRoundTrip(junk, r, []);
    assert s + [] == s && s == s[..n] + s[n..];
    RunPrefix(START, s[..n], s[n..]);
  }

  lemma JunkStarves(junk: seq<byte>)
    requires Absent(RESPONSE_HEADER, junk)
    ensures Receive(junk).Starved?
  {
    DelimitersAreDistinct();
    Exact(RESPONSE_HEADER, junk);
    HeaderRun(START, junk);
  }

  /** Recovery after a cut: a call gave up `k` bytes into the first response. If what it left unread holds no header,
      the next call, with fresh locals, returns exactly the second response. */
  lemma RecoversAfterCut(first: Response, k: nat, second: Response, rest: seq<byte>)
    requires k <= |ResponseFrame(first)|
    requires Absent(RESPONSE_HEADER, ResponseFrame(first)[k..])
    ensures Receive(ResponseFrame(first)[k..] + ResponseFrame(second) + rest)
         == Got(second, |ResponseFrame(first)| - k + |ResponseFrame(second)|)
  {
    ResponseRoundTrip(ResponseFrame(first)[k..], second, rest);
  }

  // What the host does with an arbitrary stream, said without a state machine.

  /** Search for a header; read the announced body; search for a footer. */
  function Grammar(s: seq<byte>): Outcome {
    match Search(RESPONSE_HEADER, s)
    case None => Starved
    case Some(h) => GrammarBody(s[h..]).After(h)
  }

  predicate Whole(body: seq<byte>) {
    && |body| >= 12
    && FromWire32(body[4..8]) <= CAPACITY
    && 12 + FromWire32(body[4..8]) <= |body|
  }

  function GrammarBody(body: seq<byte>): Outcome {
    if !Whole(body) then Starved
    else
      var end := 12 + FromWire32(body[4..8]);
      match Search(RESPONSE_FOOTER, body[end..])
      case None => Starved
      case Some(f) =>
        Got(Response(Signed16(FromWire16(body[..2])), FromWire16(body[8..10]), FromWire16(body[10..12]),
                     body[12..end]), end + f)
  }

  lemma ShortIds(rx: Rx, body: seq<byte>)
    requires Valid(rx) && rx.phase.Ids? && rx.index == 1
    requires rx.length <= CAPACITY ==> |body| < 4 + rx.length
    ensures Run(rx, body).Starved?
  {
    if |body| >= 2 {
      assert body == body[..2] + body[2..];
      RunTurn(rx, body[..2], body[2..]);
      var rx1 := Turn(rx, body[..2]).rx;
      if |body| >= 4 {
        assert body[2..] == body[2..4] + body[4..];
        RunTurn(rx1, body[2..4], body[4..]);
      }
    }
  }

  lemma ShortBody(rx: Rx, body: seq<byte>)
    requires Valid(rx) && rx.phase.Status?
    requires !Whole(body)
    ensures Run(rx, body).Starved?
  {
    if |body| >= 4 {
      assert body == body[..4] + body[4..];
      RunTurn(rx, body[..4], body[4..]);
      var rx1 := Turn(rx, body[..4]).rx;
      if |body| >= 8 {
        assert body[4..] == body[4..8] + body[8..];
        RunTurn(rx1, body[4..8], body[8..]);
        ShortIds(Turn(rx1, body[4..8]).rx, body[8..]);
      }
    }
  }

  /** Every complete body is the body of some response, up to the reserved field. */
  lemma BodyOf(body: seq<byte>) returns (r: Response)
    requires Whole(body)
    ensures var end := 12 + FromWire32(body[4..8]);
            && r == Response(Signed16(FromWire16(body[..2])), FromWire16(body[8..10]), FromWire16(body[10..12]),
                             body[12..end])
            && body == Wire16(Bits16(r.status)) + body[2..4] + Wire32(|r.payload|) + Wire16(r.group)
                       + Wire16(r.unit) + r.payload + body[end..]
  {
    var end := 12 + FromWire32(body[4..8]);
    r := Response(Signed16(FromWire16(body[..2])), FromWire16(body[8..10]), FromWire16(body[10..12]), body[12..end]);
    assert Bits16(r.status) == FromWire16(body[..2]);
    assert body == body[..2] + body[2..4] + body[4..8] + body[8..10] + body[10..12] + body[12..end] + body[end..];
  }

  /** On every byte stream the state machine receives exactly what the grammar describes. */
  lemma MachineIsGrammar(s: seq<byte>)
    ensures Receive(s) == Grammar(s)
  {
    DelimitersAreDistinct();
    MatcherRefinesSearch(RESPONSE_HEADER, s);
    HeaderRun(START, s);
    if Search(RESPONSE_HEADER, s).Some? {
      BodyIsGrammar(START.(phase := Status, index := 1), s[Search(RESPONSE_HEADER, s).value..]);
    }
  }

  lemma BodyIsGrammar(rx: Rx, body: seq<byte>)
    requires Valid(rx) && rx.phase.Status?
    ensures Run(rx, body) == GrammarBody(body)
  {
    if !Whole(body) {
      ShortBody(rx, body);
    } else {
      var end := 12 + FromWire32(body[4..8]);
      var r := BodyOf(body);
      DelimitersAreDistinct();
      BodyRun(rx, r, body[2..4], body[end..]);
      FooterRun(Rx(Footer, 0, r.status, Signed16(FromWire16(body[2..4])), |r.payload|, r.group, r.unit, r.payload),
                body[end..]);
      MatcherRefinesSearch(RESPONSE_FOOTER, body[end..]);
    }
  }

  // Recovery after a cut, exactly. A header left in the unread tail is taken for the start of a frame, and the group it
  // reads next, or else its length field, is then not the next response's.

  /** A call that begins at the tail returns exactly the response behind it. */
  ghost predicate Recovers(tail: seq<byte>, second: Response, rest: seq<byte>) {
    Receive(tail + ResponseFrame(second) + rest) == Got(second, |tail| + |ResponseFrame(second)|)
  }

  /** What is read after the first header is the body of what is received. */
  lemma ReadsFromFirstHeader(tail: seq<byte>, more: seq<byte>, h: nat)
    requires FirstEnd(RESPONSE_HEADER, tail, h)
    ensures Receive(tail + more) == GrammarBody(tail[h..] + more).After(h)
  {
    var s := tail + more;
    MachineIsGrammar(s);
    FirstEndPrefix(RESPONSE_HEADER, tail, more, h);
    SearchFinds(RESPONSE_HEADER, s, h);
    assert s[h..] == tail[h..] + more;
  }

  /** The response without payload that the exactness results send behind a cut. */
  function Empty(group: u16): Response {
    Response(0, group, 0, [])
  }

  /** To be received as empty, a body must announce no payload, and name the group. */
  lemma EmptyBody(body: seq<byte>, group: u16, used: nat)
    requires GrammarBody(body) == Got(Empty(group), used)
    ensures |body| >= 12 && body[4..8] == [0, 0, 0, 0] && body[8..10] == Wire16(group)
  {
    assert Wire32(FromWire32(body[4..8])) == body[4..8];
    assert |body[12..12 + FromWire32(body[4..8])]| == 0;
  }

  /** Delimiters lie in the length field when the first header is close to the tail's end. */
  lemma DelimiterInLength(left: seq<byte>, second: Response)
    requires 0 < |left| < 10
    requires |left| >= 4 ==> left[|left| - 4..] == RESPONSE_FOOTER
    ensures var body := left + ResponseFrame(second);
            body[4..8] != [0, 0, 0, 0]
  {
    var m, body := |left|, left + ResponseFrame(second);
    var at := if m < 4 then 4 else if m < 8 then m else m - 4;
    assert body[at] != 0 by {
      if m < 8 {
        assert body[at] == ResponseFrame(second)[at - m] == RESPONSE_HEADER[at - m];
      } else {
        assert body[at] == left[m - 4..][0];
      }
    }
    assert body[4..8][at - 4] == body[at];
  }

  lemma FrameEndsInFooter(r: Response, k: nat)
    requires k + 4 <= |ResponseFrame(r)|
    ensures var tail := ResponseFrame(r)[k..];
            tail[|tail| - 4..] == RESPONSE_FOOTER
  {
    assert ResponseFrame(r)[|ResponseFrame(r)| - 4..] == RESPONSE_FOOTER;
  }

  /** Behind a tail that holds a header, an empty response is received only if its group is in the tail. */
  lemma HeaderMisleads(tail: seq<byte>, h: nat, group: u16)
    requires FirstEnd(RESPONSE_HEADER, tail, h)
    requires tail[|tail| - 4..] == RESPONSE_FOOTER
    requires Recovers(tail, Empty(group), [])
    ensures |tail| >= h + 10 && tail[h + 8..h + 10] == Wire16(group)
  {
    var left, body := tail[h..], tail[h..] + ResponseFrame(Empty(group));
    HeaderNotLast(tail, h);
    ReadsEmpty(tail, h, group);
    if |left| < 10 {
      DelimiterInLength(left, Empty(group));
      assert false;
    }
    assert body[8..10] == tail[h + 8..h + 10];
  }

  lemma OneIsMissed(tail: seq<byte>, h: nat)
    requires FirstEnd(RESPONSE_HEADER, tail, h)
    requires tail[|tail| - 4..] == RESPONSE_FOOTER
    ensures !Recovers(tail, Empty(0), []) || !Recovers(tail, Empty(1), [])
  {
    assert Wire16(0) != Wire16(1);
    if Recovers(tail, Empty(0), []) {
      HeaderMisleads(tail, h, 0);
    }
    if Recovers(tail, Empty(1), []) {
      HeaderMisleads(tail, h, 1);
    }
  }

  /** A header and a footer do not end alike. */
  lemma HeaderNotLast(tail: seq<byte>, h: nat)
    requires EndsAt(RESPONSE_HEADER, tail, h)
    requires tail[|tail| - 4..] == RESPONSE_FOOTER
    ensures h < |tail|
    ensures |tail| - h >= 4 ==> tail[h..][|tail| - h - 4..] == RESPONSE_FOOTER
  {
    assert tail[h - 1] == tail[h - 4..h][3] == 0xFF;
    assert tail[|tail| - 1] == tail[|tail| - 4..][3] == 0xEE;
  }

  lemma ReadsEmpty(tail: seq<byte>, h: nat, group: u16)
    requires FirstEnd(RESPONSE_HEADER, tail, h)
    requires Recovers(tail, Empty(group), [])
    ensures var body := tail[h..] + ResponseFrame(Empty(group));
            |body| >= 12 && body[4..8] == [0, 0, 0, 0] && body[8..10] == Wire16(group)
  {
    var frame := ResponseFrame(Empty(group));
    assert tail + frame + [] == tail + frame;
    ReadsFromFirstHeader(tail, frame, h);
    EmptyBody(tail[h..] + frame, group, |tail| + |frame| - h);
  }

  /** Recovery after a cut, exactly: a call that gave up `k` bytes into a response leaves the next call able to receive
      the next response, whatever that is, iff no header occurs in what it left unread. */
  lemma RecoversExactly(first: Response, k: nat)
    requires k <= |ResponseFrame(first)|
    ensures var tail := ResponseFrame(first)[k..];
            Absent(RESPONSE_HEADER, tail) <==> forall second, rest :: Recovers(tail, second, rest)
  {
    var tail := ResponseFrame(first)[k..];
    if Absent(RESPONSE_HEADER, tail) {
      forall second, rest
        ensures Recovers(tail, second, rest)
      {
        RecoversAfterCut(first, k, second, rest);
      }
    } else {
      SearchFindsFirst(RESPONSE_HEADER, tail);
      FrameEndsInFooter(first, k);
      OneIsMissed(tail, Search(RESPONSE_HEADER, tail).value);
    }
  }

  /** A response whose payload ends in a header, cut before that header, hides everything behind it: the next call
      reads the next response's header as a length that no buffer holds, and never returns. */
  lemma CleanTailIsNeeded(first: Response, k: nat, second: Response, rest: seq<byte>)
    requires k + 8 <= |ResponseFrame(first)|
    requires ResponseFrame(first)[|ResponseFrame(first)| - 8..] == RESPONSE_HEADER + RESPONSE_FOOTER
    requires Absent(RESPONSE_HEADER, ResponseFrame(first)[k..|ResponseFrame(first)| - 8])
    ensures Receive(ResponseFrame(first)[k..] + ResponseFrame(second) + rest).Starved?
  {
    var frame, end := ResponseFrame(first), |ResponseFrame(first)| - 8;
    assert frame[k..] == frame[k..end] + frame[end..];
    Regroup(frame[k..end], RESPONSE_HEADER, RESPONSE_FOOTER, ResponseFrame(second), rest);
    HiddenBehind(frame[k..end], RESPONSE_FOOTER + ResponseFrame(second) + rest);
  }

  lemma Regroup(junk: seq<byte>, header: seq<byte>, footer: seq<byte>, frame: seq<byte>, rest: seq<byte>)
    ensures junk + (header + footer) + frame + rest == junk + header + (footer + frame + rest)
  {
  }

  lemma HiddenBehind(junk: seq<byte>, body: seq<byte>)
    requires Absent(RESPONSE_HEADER, junk)
    requires |body| >= 8 && body[4..8] == RESPONSE_HEADER
    ensures Receive(junk + RESPONSE_HEADER + body).Starved?
  {
    DelimitersAreDistinct();
    var s := junk + RESPONSE_HEADER + body;
    AfterJunk(RESPONSE_HEADER, junk, body);
    MatcherRefinesSearch(RESPONSE_HEADER, s);
    MachineIsGrammar(s);
    assert s[|junk| + 4..] == body;
    HeaderIsNoLength(FromWire32(RESPONSE_HEADER));
  }

  lemma HeaderIsNoLength(n: u32)
    requires Wire32(n) == RESPONSE_HEADER
    ensures n > CAPACITY
  {
    assert n == FromWire32(Wire32(n));
  }
}
