/** The target's five-state command receiver as a function of the byte stream. */
module TargetStream {
  import opened Octets
  import opened Matcher
  import opened Frames

  datatype Phase = Header | Length | Ids | Data | Footer

  type Quad = s: seq<byte> | |s| == 4 witness [0, 0, 0, 0]

  /** The receiver's global fields. `payload` is the part of the data buffer that the current frame has filled. */
  datatype Rx = Rx(phase: Phase, index: nat, header: Quad, footer: Quad,
                   length: u32, group: u16, unit: u16, payload: seq<byte>)

  /** The receiver invariant. */
  ghost predicate Valid(rx: Rx) {
    match rx.phase
    case Header => rx.index < 4 && rx.header[..rx.index] == COMMAND_HEADER[..rx.index] && rx.payload == []
    case Length => rx.index == 1 && rx.header == COMMAND_HEADER && rx.payload == []
    case Ids => rx.index <= 1 && rx.header == COMMAND_HEADER && rx.payload == []
    case Data => rx.index == 0 && rx.header == COMMAND_HEADER && rx.payload == [] && rx.length > 0
    case Footer =>
      && rx.index < 4 && rx.header == COMMAND_HEADER && rx.footer[..rx.index] == COMMAND_FOOTER[..rx.index]
      && |rx.payload| == rx.length <= CAPACITY
  }

  /** The bytes one turn of the receive loop takes from the socket. */
  function Need(rx: Rx): nat {
    match rx.phase
    case Header => 1
    case Length => 4
    case Ids => 2
    case Data => rx.length
    case Footer => 1
  }

  /** A turn can complete: the bytes are there, and an announced payload fits. */
  predicate Ready(rx: Rx, input: seq<byte>) {
    && Need(rx) <= |input|
    && (rx.phase.Data? ==> rx.length <= CAPACITY)
  }

  datatype Turned = Turned(rx: Rx, out: seq<Command>)

  /** The header or footer bytes saved so far, after one more. */
  function Saved(was: Quad, index: nat, b: byte): Quad
    requires index <= 4
  {
    if index > 0 then was[index - 1 := b] else was
  }

  /** The saved bytes stay the prefix of the delimiter that the index says they are. */
  lemma SavedIsPrefix(p: Quad, was: Quad, i: nat, b: byte)
    requires i < 4 && was[..i] == p[..i]
    ensures var j := Advance(p, i, b);
            Saved(was, j, b)[..j] == p[..j]
  {
    var j := Advance(p, i, b);
    if j == i + 1 {
      assert was[i := b][..i] == p[..i];
    }
  }

  /** One turn of the receive loop on exactly the bytes it reads. */
  function Turn(rx: Rx, chunk: seq<byte>): (t: Turned)
    requires Valid(rx) && |chunk| == Need(rx) && Ready(rx, chunk)
    ensures Valid(t.rx)
  {
    match rx.phase
    case Header =>
      var j := Advance(COMMAND_HEADER, rx.index, chunk[0]);
      var h := Saved(rx.header, j, chunk[0]);
      SavedIsPrefix(COMMAND_HEADER, rx.header, rx.index, chunk[0]);
      if j >= 4 then Turned(rx.(phase := Length, index := 1, header := h), [])
      else Turned(rx.(index := j, header := h), [])
    case Length => Turned(rx.(phase := Ids, length := FromWire32(chunk)), [])
    case Ids =>
      if rx.index > 0 then Turned(rx.(group := FromWire16(chunk), index := 0), [])
      else Turned(rx.(unit := FromWire16(chunk), phase := if rx.length != 0 then Data else Footer), [])
    case Data => Turned(rx.(phase := Footer, index := 0, payload := chunk), [])
    case Footer =>
      var j := Advance(COMMAND_FOOTER, rx.index, chunk[0]);
      var f := Saved(rx.footer, j, chunk[0]);
      SavedIsPrefix(COMMAND_FOOTER, rx.footer, rx.index, chunk[0]);
      if j >= 4 then
        Turned(rx.(phase := Header, index := 0, footer := f, payload := []),
               [Command(rx.group, rx.unit, rx.payload)])
      else Turned(rx.(index := j, footer := f), [])
  }

  datatype Ran = Ran(rx: Rx, rest: seq<byte>, out: seq<Command>) {
    /** The same run, with commands dispatched before it. */
    function Behind(before: seq<Command>): Ran {
      Ran(rx, rest, before + out)
    }

    lemma BehindTwice(a: seq<Command>, b: seq<Command>)
      ensures Behind(b).Behind(a) == Behind(a + b)
      ensures Behind([]) == this
    {
      assert a + (b + out) == a + b + out;
    }
  }

  /** Turns until the receiver blocks: the state reached, the bytes left unread, the commands dispatched. */
  function Run(rx: Rx, input: seq<byte>): (r: Ran)
    requires Valid(rx)
    ensures Valid(r.rx) && !Ready(r.rx, r.rest)
    decreases |input|
  {
    if !Ready(rx, input) then Ran(rx, input, [])
    else
      var n := Need(rx);
      var t := Turn(rx, input[..n]);
      Run(t.rx, input[n..]).Behind(t.out)
  }

  /** Between frames: header state, index zero. */
  predicate Idle(rx: Rx) {
    rx.phase.Header? && rx.index == 0
  }

  // Composition.

  lemma RunTurn(rx: Rx, chunk: seq<byte>, rest: seq<byte>)
    requires Valid(rx) && |chunk| == Need(rx) && Ready(rx, chunk)
    ensures var t := Turn(rx, chunk);
            Run(rx, chunk + rest) == Run(t.rx, rest).Behind(t.out)
  {
    assert (chunk + rest)[..|chunk|] == chunk && (chunk + rest)[|chunk|..] == rest;
  }

  /** Fragmentation independence of the whole receiver: however the stream is cut into deliveries, the state, the
      unread bytes and the dispatched commands are those of the uncut stream. */
  lemma {:induction false} RunInPieces(rx: Rx, a: seq<byte>, b: seq<byte>)
    requires Valid(rx)
    ensures var r := Run(rx, a);
            Run(rx, a + b) == Run(r.rx, r.rest + b).Behind(r.out)
    decreases |a|
  {
    if Ready(rx, a) {
      var chunk, rest := a[..Need(rx)], a[Need(rx)..];
      var next, out := Turn(rx, chunk).rx, Turn(rx, chunk).out;
      RunReady(rx, a, chunk, rest);
      RunReady(rx, a + b, chunk, rest + b);
      RunInPieces(next, rest, b);
      var r := Run(next, rest);
      Glue(Run(rx, a + b), Run(rx, a), Run(next, rest + b), r, Run(r.rx, r.rest + b), out);
    } else {
      Run(rx, a + b).BehindTwice([], []);
    }
  }

  lemma RunReady(rx: Rx, input: seq<byte>, chunk: seq<byte>, rest: seq<byte>)
    requires Valid(rx) && |chunk| == Need(rx) && Ready(rx, chunk) && input == chunk + rest
    ensures Run(rx, input) == Run(Turn(rx, chunk).rx, rest).Behind(Turn(rx, chunk).out)
  {
    RunTurn(rx, chunk, rest);
  }

  lemma Glue(whole: Ran, part: Ran, more: Ran, r: Ran, end: Ran, out: seq<Command>)
    requires whole == more.Behind(out) && part == r.Behind(out) && more == end.Behind(r.out)
    ensures whole == end.Behind(part.out)
  {
    end.BehindTwice(out, r.out);
  }

  // The header and footer states are the matcher.

  lemma {:induction false} HeaderRun(rx: Rx, s: seq<byte>)
    requires Valid(rx) && rx.phase.Header?
    ensures match Scanning(COMMAND_HEADER, rx.index, s)
            case Found(n) =>
              var next := rx.(phase := Length, index := 1, header := COMMAND_HEADER);
              Run(rx, s) == Run(next, s[n..])
            case Pending(k) =>
              var r := Run(rx, s);
              r == Ran(rx.(index := k, header := r.rx.header), [], [])
    decreases |s|
  {
    if s != [] {
      HeaderStep(rx, s);
      var j := Advance(COMMAND_HEADER, rx.index, s[0]);
      if j < 4 {
        HeaderRun(rx.(index := j, header := Saved(rx.header, j, s[0])), s[1..]);
      }
    }
  }

  lemma HeaderStep(rx: Rx, s: seq<byte>)
    requires Valid(rx) && rx.phase.Header? && s != []
    ensures var j := Advance(COMMAND_HEADER, rx.index, s[0]);
            var next := if j < 4 then rx.(index := j, header := Saved(rx.header, j, s[0]))
                        else rx.(phase := Length, index := 1, header := COMMAND_HEADER);
            Valid(next) && Run(rx, s) == Run(next, s[1..])
  {
    var t := Turn(rx, s[..1]);
    assert s == s[..1] + s[1..];
    RunTurn(rx, s[..1], s[1..]);
    Run(t.rx, s[1..]).BehindTwice([], []);
  }

  lemma {:induction false} FooterRun(rx: Rx, s: seq<byte>)
    requires Valid(rx) && rx.phase.Footer?
    ensures match Scanning(COMMAND_FOOTER, rx.index, s)
            case Found(n) =>
              var next := rx.(phase := Header, index := 0, footer := COMMAND_FOOTER, payload := []);
              Run(rx, s) == Run(next, s[n..]).Behind([Command(rx.group, rx.unit, rx.payload)])
            case Pending(k) =>
              var r := Run(rx, s);
              r == Ran(rx.(index := k, footer := r.rx.footer), [], [])
    decreases |s|
  {
    if s != [] {
      FooterStep(rx, s);
      var j := Advance(COMMAND_FOOTER, rx.index, s[0]);
      if j < 4 {
        FooterRun(rx.(index := j, footer := Saved(rx.footer, j, s[0])), s[1..]);
      }
    }
  }

  lemma FooterStep(rx: Rx, s: seq<byte>)
    requires Valid(rx) && rx.phase.Footer? && s != []
    ensures var j := Advance(COMMAND_FOOTER, rx.index, s[0]);
            var next := if j < 4 then rx.(index := j, footer := Saved(rx.footer, j, s[0]))
                        else rx.(phase := Header, index := 0, footer := COMMAND_FOOTER, payload := []);
            && Valid(next)
            && Run(rx, s) == Run(next, s[1..]).Behind(if j < 4 then [] else [Command(rx.group, rx.unit, rx.payload)])
            && (j < 4 ==> Run(rx, s) == Run(next, s[1..]))
  {
    var t := Turn(rx, s[..1]);
    assert s == s[..1] + s[1..];
    RunTurn(rx, s[..1], s[1..]);
    FooterTurn(rx, s[..1]);
    Run(t.rx, s[1..]).BehindTwice([], []);
  }

  lemma FooterTurn(rx: Rx, chunk: seq<byte>)
    requires Valid(rx) && rx.phase.Footer? && |chunk| == 1
    ensures var j := Advance(COMMAND_FOOTER, rx.index, chunk[0]);
            Turn(rx, chunk) == if j < 4 then Turned(rx.(index := j, footer := Saved(rx.footer, j, chunk[0])), [])
                               else Turned(rx.(phase := Header, index := 0, footer := COMMAND_FOOTER, payload := []),
                                           [Command(rx.group, rx.unit, rx.payload)])
  {
    SavedIsPrefix(COMMAND_FOOTER, rx.footer, rx.index, chunk[0]);
  }

  /** From the length state, a frame's body takes the receiver to the footer state with the frame's fields. */
  lemma BodyRun(rx: Rx, c: Command, rest: seq<byte>)
    requires Valid(rx) && rx.phase.Length?
    ensures var full := rx.(phase := Footer, index := 0, length := |c.payload|, group := c.group, unit := c.unit,
                            payload := c.payload);
            Run(rx, CommandBody(c) + rest) == Run(full, rest)
  {
    var len, gid, uid := Wire32(|c.payload|), Wire16(c.group), Wire16(c.unit);
    assert CommandBody(c) + rest == len + (gid + (uid + (c.payload + rest)));
    NetworkOrder32(|c.payload|, len);
    NetworkOrder16(c.group, gid);
    NetworkOrder16(c.unit, uid);
    RunTurn(rx, len, gid + (uid + (c.payload + rest)));
    var rx1 := Turn(rx, len).rx;
    RunTurn(rx1, gid, uid + (c.payload + rest));
    var rx2 := Turn(rx1, gid).rx;
    RunTurn(rx2, uid, c.payload + rest);
    var rx3 := Turn(rx2, uid).rx;
    if c.payload == [] {
      assert c.payload + rest == rest;
    } else {
      RunTurn(rx3, c.payload, rest);
    }
  }

  /** The state in which a frame leaves the receiver. */
  function After(c: Command): (rx: Rx) {
    Rx(Header, 0, COMMAND_HEADER, COMMAND_FOOTER, |c.payload|, c.group, c.unit, [])
  }

  /** One frame, after junk with no header in it, and followed by anything in which a footer ends at `n`. */
  lemma FrameRun(rx: Rx, junk: seq<byte>, c: Command, tail: seq<byte>)
    requires Valid(rx) && Idle(rx)
    requires Absent(COMMAND_HEADER, junk)
    requires Scanning(COMMAND_FOOTER, 0, tail).Found?
    ensures var n := Scanning(COMMAND_FOOTER, 0, tail).used;
            Run(rx, junk + COMMAND_HEADER + CommandBody(c) + tail) == Run(After(c), tail[n..]).Behind([c])
  {
    DelimitersAreDistinct();
    var s := junk + COMMAND_HEADER + CommandBody(c) + tail;
    assert s == junk + COMMAND_HEADER + (CommandBody(c) + tail);
    AfterJunk(COMMAND_HEADER, junk, CommandBody(c) + tail);
    HeaderRun(rx, s);
    assert s[|junk| + 4..] == CommandBody(c) + tail;
    var rx1 := rx.(phase := Length, index := 1, header := COMMAND_HEADER);
    BodyRun(rx1, c, tail);
    var rx2 := rx1.(phase := Footer, index := 0, length := |c.payload|, group := c.group, unit := c.unit,
                    payload := c.payload);
    FooterRun(rx2, tail);
  }

  lemma WholeFrameRun(rx: Rx, junk: seq<byte>, c: Command, more: seq<byte>)
    requires Valid(rx) && Idle(rx)
    requires Absent(COMMAND_HEADER, junk)
    ensures Run(rx, junk + CommandFrame(c) + more) == Run(After(c), more).Behind([c])
  {
    DelimitersAreDistinct();
    Synchronises(COMMAND_FOOTER, 0, more);
    FrameRun(rx, junk, c, COMMAND_FOOTER + more);
    Reassociate(junk, COMMAND_HEADER, CommandBody(c), COMMAND_FOOTER, more);
  }

  lemma Reassociate(junk: seq<byte>, header: seq<byte>, body: seq<byte>, footer: seq<byte>, more: seq<byte>)
    ensures junk + (header + body + footer) + more == junk + header + body + (footer + more)
    ensures (footer + more)[|footer|..] == more
  {
  }

  /** A command on the wire behind bytes that belong to no frame. */
  datatype Sent = Sent(gap: seq<byte>, command: Command)

  function Wire(items: seq<Sent>): seq<byte> {
    if items == [] then [] else items[0].gap + CommandFrame(items[0].command) + Wire(items[1..])
  }

  function Commands(items: seq<Sent>): seq<Command> {
    if items == [] then [] else [items[0].command] + Commands(items[1..])
  }

  ghost predicate CleanGaps(items: seq<Sent>) {
    forall i :: 0 <= i < |items| ==> Absent(COMMAND_HEADER, items[i].gap)
  }

  /** Stream transparency: whatever the payloads contain, and whatever header-free bytes lie between the frames, the
      target dispatches exactly the commands framed, in order, and ends between frames with nothing unread. What
      follows the last frame is read from there. */
  lemma {:induction false} Transparent(rx: Rx, items: seq<Sent>, rest: seq<byte>)
    requires Valid(rx) && Idle(rx)
    requires CleanGaps(items)
    ensures var last := if items == [] then rx else After(items[|items| - 1].command);
            Run(rx, Wire(items) + rest) == Run(last, rest).Behind(Commands(items))
    decreases |items|
  {
    if items == [] {
      assert Wire(items) + rest == rest;
      Run(rx, rest).BehindTwice([], []);
    } else {
      var c, more := items[0].command, Wire(items[1..]) + rest;
      var last := After(items[|items| - 1].command);
      assert Wire(items) + rest == items[0].gap + CommandFrame(c) + more;
      WholeFrameRun(rx, items[0].gap, c, more);
      Transparent(After(c), items[1..], rest);
      Run(last, rest).BehindTwice([c], Commands(items[1..]));
    }
  }

  /** The gapless case: what the host itself sends. */
  lemma TransparentFrames(rx: Rx, cs: seq<Command>)
    requires Valid(rx) && Idle(rx)
    ensures var r := Run(rx, CommandFrames(cs));
            r.out == cs && r.rest == [] && Idle(r.rx)
  {
    var items := seq(|cs|, i requires 0 <= i < |cs| => Sent([], cs[i]));
    GaplessWire(cs, items);
    Transparent(rx, items, []);
    assert Wire(items) + [] == Wire(items);
    assert Commands(items) + [] == Commands(items);
  }

  /** One more frame behind a stream that ends between frames. */
  lemma OneMoreFrame(rx: Rx, s: seq<byte>, c: Command)
    requires Valid(rx)
    requires Run(rx, s).rest == [] && Idle(Run(rx, s).rx)
    ensures var r := Run(rx, s + CommandFrame(c));
            r.rest == [] && Idle(r.rx) && r.out == Run(rx, s).out + [c]
  {
    RunInPieces(rx, s, CommandFrame(c));
    TransparentFrames(Run(rx, s).rx, [c]);
    assert CommandFrames([c]) == CommandFrame(c) + [];
    assert [] + CommandFrame(c) == CommandFrame(c) + [];
  }

  lemma {:induction false} GaplessWire(cs: seq<Command>, items: seq<Sent>)
    requires |items| == |cs|
    requires forall i :: 0 <= i < |cs| ==> items[i] == Sent([], cs[i])
    ensures Wire(items) == CommandFrames(cs) && Commands(items) == cs
  {
    if cs != [] {
      GaplessWire(cs[1..], items[1..]);
      assert [] + CommandFrame(cs[0]) == CommandFrame(cs[0]);
    }
  }

  /** Recovery after a damaged footer: the target keeps the frame, swallows exactly the bytes up to the next footer —
      here the whole next frame — delivers the damaged frame, and dispatches every later one. */
  lemma DamagedFooter(rx: Rx, c: Command, damage: seq<byte>, swallowed: Command, later: seq<Command>)
    requires Valid(rx) && Idle(rx)
    requires Absent(COMMAND_FOOTER, damage + COMMAND_HEADER + CommandBody(swallowed))
    ensures var r := Run(rx, COMMAND_HEADER + CommandBody(c) + damage + CommandFrame(swallowed)
                             + CommandFrames(later));
            r.out == [c] + later && r.rest == [] && Idle(r.rx)
  {
    var rest := CommandFrames(later);
    SwallowsToFooter(rx, c, damage + COMMAND_HEADER + CommandBody(swallowed), rest);
    TransparentFrames(After(c), later);
    Regroup(COMMAND_HEADER + CommandBody(c), damage, COMMAND_HEADER, CommandBody(swallowed), COMMAND_FOOTER, rest);
  }

  lemma Regroup(frame: seq<byte>, damage: seq<byte>, header: seq<byte>, body: seq<byte>, footer: seq<byte>,
                rest: seq<byte>)
    ensures frame + damage + (header + body + footer) + rest == frame + (damage + header + body) + footer + rest
  {
  }

  lemma SwallowsToFooter(rx: Rx, c: Command, lost: seq<byte>, rest: seq<byte>)
    requires Valid(rx) && Idle(rx)
    requires Absent(COMMAND_FOOTER, lost)
    ensures Run(rx, COMMAND_HEADER + CommandBody(c) + lost + COMMAND_FOOTER + rest) == Run(After(c), rest).Behind([c])
  {
    DelimitersAreDistinct();
    var tail := lost + COMMAND_FOOTER + rest;
    AfterJunk(COMMAND_FOOTER, lost, rest);
    assert tail[|lost| + 4..] == rest;
    assert COMMAND_HEADER + CommandBody(c) + lost + COMMAND_FOOTER + rest
        == [] + COMMAND_HEADER + CommandBody(c) + tail;
    FrameRun(rx, [], c, tail);
  }

  // What the target does with an arbitrary stream, said without a state machine.

  /** The commands in a stream: search for a header; read the announced body; search for a footer; repeat. */
  function Grammar(s: seq<byte>): seq<Command>
    decreases |s|
  {
    match Search(COMMAND_HEADER, s)
    case None => []
    case Some(h) => GrammarBody(s[h..])
  }

  predicate Whole(body: seq<byte>) {
    && |body| >= 8
    && FromWire32(body[..4]) <= CAPACITY
    && 8 + FromWire32(body[..4]) <= |body|
  }

  function BodyCommand(body: seq<byte>): (c: Command)
    requires Whole(body)
    ensures CommandBody(c) <= body
  {
    var length := FromWire32(body[..4]);
    var c := Command(FromWire16(body[4..6]), FromWire16(body[6..8]), body[8..8 + length]);
    assert body == body[..4] + body[4..6] + body[6..8] + body[8..8 + length] + body[8 + length..];
    c
  }

  function GrammarBody(body: seq<byte>): seq<Command>
    decreases |body|
  {
    if !Whole(body) then []
    else
      var c := BodyCommand(body);
      var tail := body[|CommandBody(c)|..];
      match Search(COMMAND_FOOTER, tail)
      case None => []
      case Some(f) => [c] + Grammar(tail[f..])
  }

  /** If the body is not all there, or announces more than fits, nothing is dispatched. */
  lemma ShortBody(rx: Rx, body: seq<byte>)
    requires Valid(rx) && rx.phase.Length?
    requires !Whole(body)
    ensures Run(rx, body).out == []
  {
    if |body| >= 4 {
      assert body == body[..4] + body[4..];
      RunTurn(rx, body[..4], body[4..]);
      var rx1 := Turn(rx, body[..4]).rx;
      if |body| >= 6 {
        SplitBehind(body, 4, 6);
        RunTurn(rx1, body[4..6], body[6..]);
        var rx2 := Turn(rx1, body[4..6]).rx;
        if |body| >= 8 {
          SplitBehind(body, 6, 8);
          RunTurn(rx2, body[6..8], body[8..]);
        }
      }
    }
  }

  /** The footer state and everything after it, on an arbitrary tail. */
  lemma FooterIsGrammar(rx: Rx, c: Command, tail: seq<byte>)
    requires Valid(rx) && rx.phase.Footer? && rx.index == 0 && c == Command(rx.group, rx.unit, rx.payload)
    ensures match Search(COMMAND_FOOTER, tail)
            case None => Run(rx, tail).out == []
            case Some(f) =>
              var next := rx.(phase := Header, index := 0, footer := COMMAND_FOOTER, payload := []);
              Run(rx, tail).out == [c] + Run(next, tail[f..]).out
  {
    DelimitersAreDistinct();
    FooterRun(rx, tail);
    MatcherRefinesSearch(COMMAND_FOOTER, tail);
  }

  /** On every byte stream the state machine dispatches exactly the commands of the grammar. */
  lemma {:induction false} MachineIsGrammar(rx: Rx, s: seq<byte>)
    requires Valid(rx) && Idle(rx)
    ensures Run(rx, s).out == Grammar(s)
    decreases |s|
  {
    DelimitersAreDistinct();
    MatcherRefinesSearch(COMMAND_HEADER, s);
    HeaderRun(rx, s);
    if Search(COMMAND_HEADER, s).Some? {
      BodyIsGrammar(rx.(phase := Length, index := 1, header := COMMAND_HEADER), s[Search(COMMAND_HEADER, s).value..]);
    }
  }

  lemma {:induction false} BodyIsGrammar(rx: Rx, body: seq<byte>)
    requires Valid(rx) && rx.phase.Length?
    ensures Run(rx, body).out == GrammarBody(body)
    decreases |body|
  {
    if !Whole(body) {
      ShortBody(rx, body);
    } else {
      var c := BodyCommand(body);
      var tail := body[|CommandBody(c)|..];
      var rx2 := rx.(phase := Footer, index := 0, length := |c.payload|, group := c.group, unit := c.unit,
                     payload := c.payload);
      assert Run(rx, body) == Run(rx2, tail) by {
        assert body == CommandBody(c) + tail;
        BodyRun(rx, c, tail);
      }
      FooterIsGrammar(rx2, c, tail);
      if Search(COMMAND_FOOTER, tail).Some? {
        MachineIsGrammar(rx2.(phase := Header, index := 0, footer := COMMAND_FOOTER, payload := []),
                         tail[Search(COMMAND_FOOTER, tail).value..]);
      }
    }
  }
}
