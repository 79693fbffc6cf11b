/** The target's server task: receive turns, dispatch, framing and sending, on the global handle's own fields. */
module TargetServer {
  import opened Octets
  import opened Matcher
  import opened Frames
  import opened Sockets
  import opened TargetStream
  import opened Framers
  import Link

  /** The most one payload read asks for. Its header is not part of this model: any positive value would do. */
  const MAX_RX_TCPMSG_SIZE: nat := MAX_TCP_STACK_SIZE

  class Server {
    var phase: Phase
    var index: nat
    const header: array<byte>
    const footer: array<byte>
    var length: u32
    var group: u16
    var unit: u16
    const receiveBuffer: array<byte>
    const rxData: array<byte>
    const packet: ResponsePacket
    const transmitBuffer: array<byte>

    /** The global handle starts zeroed. */
    constructor ()
      ensures Ok() && fresh(Footprint())
      ensures View() == Link.INITIAL.target
    {
      phase, index, length, group, unit := Header, 0, 0, 0, 0;
      header := new byte[] [0, 0, 0, 0];
      footer := new byte[] [0, 0, 0, 0];
      receiveBuffer := new byte[MAX_TCPMSG_SIZE];
      rxData := new byte[MAX_TCPMSG_SIZE];
      transmitBuffer := new byte[MAX_TCPMSG_SIZE];
      packet := new ResponsePacket();
      new;
      assert header[..] == [0, 0, 0, 0] && footer[..] == [0, 0, 0, 0];
      assert View() == Rx(Header, 0, header[..], footer[..], 0, 0, 0, []);
    }

    ghost function Receiving(): set<object> {
      {this, header, footer, receiveBuffer, rxData}
    }

    ghost function Footprint(): set<object> {
      Receiving() + {packet, packet.data, transmitBuffer}
    }

    ghost predicate Shape() {
      && header.Length == footer.Length == 4
      && receiveBuffer.Length == rxData.Length == transmitBuffer.Length == packet.data.Length == MAX_TCPMSG_SIZE
      && header != footer && header != receiveBuffer && header != rxData
      && footer != receiveBuffer && footer != rxData && receiveBuffer != rxData
      && packet.data != transmitBuffer
      && packet.data !in [header, footer, receiveBuffer, rxData]
      && transmitBuffer !in [header, footer, receiveBuffer, rxData]
    }

    /** The receiver state these fields stand for. */
    ghost function View(): Rx
      requires Shape()
      reads Receiving()
    {
      Rx(phase, index, header[..], footer[..], length, group, unit,
         if phase.Footer? && length <= rxData.Length then rxData[..length] else [])
    }

    ghost predicate Ok()
      reads Receiving()
    {
      Shape() && Valid(View())
    }

    // The arms of the receive switch.

    method HeaderTurn(sock: Socket)
      requires Ok() && phase.Header? && sock.inbox != []
      modifies `phase, `index, header, sock`inbox
      ensures Ok()
      ensures var chunk := old(sock.inbox)[..1];
              View() == Turn(old(View()), chunk).rx && old(sock.inbox) == chunk + sock.inbox
    {
      ghost var before := View();
      var chunk := sock.RecvExactly(1);
      assert chunk == old(sock.inbox)[..1];
      var data := chunk[0];
      if data == COMMAND_HEADER[index] {
        index := index + 1;
      } else if data == COMMAND_HEADER[0] {
        index := 1;
      } else {
        index := 0;
      }
      if index > 0 {
        header[index - 1] := data;
      }
      assert header[..] == Saved(before.header, index, data);
      if index >= |COMMAND_HEADER| {
        phase := Length;
        index := 1;
      }
    }

    method LengthTurn(sock: Socket)
      requires Ok() && phase.Length? && |sock.inbox| >= 4
      modifies `phase, `length, sock`inbox
      ensures Ok()
      ensures var chunk := old(sock.inbox)[..4];
              View() == Turn(old(View()), chunk).rx && old(sock.inbox) == chunk + sock.inbox
    {
      var chunk := sock.RecvExactly(4);
      assert chunk == old(sock.inbox)[..4];
      NetworkOrder32(0, chunk);
      length := Htonl(Load32(chunk));
      phase := Ids;
    }

    method IdsTurn(sock: Socket)
      requires Ok() && phase.Ids? && |sock.inbox| >= 2
      modifies `phase, `index, `group, `unit, sock`inbox
      ensures Ok()
      ensures var chunk := old(sock.inbox)[..2];
              View() == Turn(old(View()), chunk).rx && old(sock.inbox) == chunk + sock.inbox
    {
      var chunk := sock.RecvExactly(2);
      assert chunk == old(sock.inbox)[..2];
      NetworkOrder16(0, chunk);
      if index > 0 {
        group := Htons(Load16(chunk));
        index := 0;
      } else {
        unit := Htons(Load16(chunk));
        index := 0;
        if length != 0 {
          phase := Data;
        } else {
          assert rxData[..0] == [];
          phase := Footer;
        }
      }
    }

    /** Whatever positive short reads the socket makes, the payload stored is the announced number of bytes, in order,
        and nothing more is read. */
    method DataTurn(sock: Socket)
      requires Ok() && phase.Data? && Ready(View(), sock.inbox)
      modifies `phase, `index, receiveBuffer, rxData, sock`inbox
      ensures Ok()
      ensures var chunk := old(sock.inbox)[..old(length)];
              View() == Turn(old(View()), chunk).rx && old(sock.inbox) == chunk + sock.inbox
    {
      var received: nat, remaining: nat := 0, length;
      while remaining > 0
        invariant received + remaining == length
        invariant old(sock.inbox) == receiveBuffer[..received] + sock.inbox
        invariant header[..] == old(header[..]) && footer[..] == old(footer[..])
      {
        var asked := if remaining > MAX_RX_TCPMSG_SIZE then MAX_RX_TCPMSG_SIZE else remaining;
        var chunk := sock.Recv(asked);
        received := Append(receiveBuffer, received, chunk);
        remaining := remaining - |chunk|;
      }
      assert receiveBuffer[..received] == old(sock.inbox)[..length];
      receiveBuffer[received] := 0;
      assert receiveBuffer[..received] == old(sock.inbox)[..length];
      var _ := Append(rxData, 0, receiveBuffer[..received]);
      assert rxData[..length] == old(sock.inbox)[..length];
      phase, index := Footer, 0;
    }

    method FooterTurn(sock: Socket) returns (received: bool)
      requires Ok() && phase.Footer? && sock.inbox != []
      modifies `phase, `index, footer, sock`inbox
      ensures Ok()
      ensures var chunk := old(sock.inbox)[..1];
              var t := Turn(old(View()), chunk);
              && View() == t.rx && old(sock.inbox) == chunk + sock.inbox
              && t.out == if received then [Command(group, unit, rxData[..length])] else []
    {
      ghost var before := View();
      var chunk := sock.RecvExactly(1);
      assert chunk == old(sock.inbox)[..1];
      var data := chunk[0];
      if data == COMMAND_FOOTER[index] {
        index := index + 1;
      } else if data == COMMAND_FOOTER[0] {
        index := 1;
      } else {
        index := 0;
      }
      if index > 0 {
        footer[index - 1] := data;
      }
      assert footer[..] == Saved(before.footer, index, data);
      received := index >= |COMMAND_FOOTER|;
      if received {
        phase := Header;
        index := 0;
      }
    }

    /** The next read would wait, or the payload announced does not fit. */
    method WouldBlock(sock: Socket) returns (blocked: bool)
      requires Ok()
      ensures blocked == !Ready(View(), sock.inbox)
    {
      var need := match phase
        case Header => 1
        case Length => 4
        case Ids => 2
        case Data => length
        case Footer => 1;
      blocked := |sock.inbox| < need || (phase.Data? && length > CAPACITY);
    }

    /** One pass of the receive loop: the abstract turn on exactly the bytes it needs. */
    method ReceiveTurn(sock: Socket) returns (received: bool)
      requires Ok() && Ready(View(), sock.inbox)
      modifies Receiving(), sock`inbox
      ensures Ok()
      ensures var chunk := old(sock.inbox)[..Need(old(View()))];
              var t := Turn(old(View()), chunk);
              && View() == t.rx && old(sock.inbox) == chunk + sock.inbox
              && sock.outbox == old(sock.outbox) && sock.failures == old(sock.failures)
              && received == (t.out != [])
              && (received ==> length <= CAPACITY
                               && t.out == [Command(group, unit, rxData[..length])])
    {
      received := false;
      match phase
      case Header => HeaderTurn(sock);
      case Length => LengthTurn(sock);
      case Ids => IdsTurn(sock);
      case Data => DataTurn(sock);
      case Footer => received := FooterTurn(sock);
    }

    /** Dispatches the command just received and sends its response. */
    method CommandProcessor(h: Link.Handler, sock: Socket) returns (ok: bool)
      requires Ok() && length <= CAPACITY
      modifies packet, packet.data, transmitBuffer, sock`outbox, sock`asked, sock`failures
      ensures Ok() && View() == old(View()) && sock.inbox == old(sock.inbox)
      ensures sock.failures == old(sock.failures) + if ok then 0 else 1
      ensures var a := h(group, unit, rxData[..length]);
              var frame := ResponseFrame(Response(a.status, group, a.unit, a.payload));
              && (ok ==> sock.outbox == old(sock.outbox) + frame)
              && (!ok ==> CutShort(sock.outbox, old(sock.outbox), frame))
    {
      var answer := h(group, unit, rxData[..length]);
      packet.group, packet.unit := group, answer.unit;
      var _ := Append(packet.data, 0, answer.payload);
      var response := Response(answer.status, group, answer.unit, answer.payload);
      var n := FrameResponse(packet, transmitBuffer, response);
      ok := SendPartial(sock, transmitBuffer, n);
    }

    /** The same turn, as a step of the run it belongs to. */
    method ReceiveOnce(sock: Socket) returns (received: bool, ghost out: seq<Command>, ghost after: Ran)
      requires Ok() && Ready(View(), sock.inbox)
      modifies Receiving(), sock`inbox
      ensures Ok() && |sock.inbox| < old(|sock.inbox|)
      ensures sock.outbox == old(sock.outbox) && sock.failures == old(sock.failures)
      ensures after == Run(View(), sock.inbox)
      ensures Run(old(View()), old(sock.inbox)) == after.Behind(out)
      ensures received ==> length <= CAPACITY
      ensures out == if received then [Command(group, unit, rxData[..length])] else []
    {
      ghost var view, inbox := View(), sock.inbox;
      received := ReceiveTurn(sock);
      ghost var chunk := inbox[..Need(view)];
      out := Turn(view, chunk).out;
      RunTurn(view, chunk, sock.inbox);
      after := Run(View(), sock.inbox);
    }

    /** One pass of the server loop: a receive turn and, if it completed a command, the dispatch of it. */
    method ServeTurn(h: Link.Handler, sock: Socket) returns (ok: bool, ghost out: seq<Command>, ghost after: Ran)
      requires Ok() && Ready(View(), sock.inbox)
      modifies Footprint(), sock
      ensures Ok() && |sock.inbox| < old(|sock.inbox|)
      ensures sock.failures == old(sock.failures) + if ok then 0 else 1
      ensures after == Run(View(), sock.inbox)
      ensures Run(old(View()), old(sock.inbox)) == after.Behind(out)
      ensures ok ==> sock.outbox == old(sock.outbox) + ResponseFrames(Link.Replies(h, out))
      ensures !ok ==> CutShort(sock.outbox, old(sock.outbox), ResponseFrames(Link.Replies(h, out)))
    {
      var received;
      received, out, after := ReceiveOnce(sock);
      ok := true;
      if received {
        ok := CommandProcessor(h, sock);
        OneReply(h, out[0]);
      } else {
        assert ResponseFrames(Link.Replies(h, [])) == [];
      }
    }

    /** Part of the run `whole` has been made, and its commands answered; the rest of it is `more`. */
    ghost predicate Standing(h: Link.Handler, sock: Socket, whole: Ran, start: seq<byte>, more: Ran,
                             done: seq<Command>)
      reads Receiving(), sock
    {
      Ok() && more == Run(View(), sock.inbox) && Served(h, whole, start, more, sock.outbox, done)
    }

    /** One pass of the server loop, as progress in the run `whole`. */
    method LoopBody(h: Link.Handler, sock: Socket, ghost whole: Ran, ghost start: seq<byte>, ghost more: Ran,
                    ghost done: seq<Command>)
      returns (ok: bool, blocked: bool, ghost more': Ran, ghost done': seq<Command>)
      requires Standing(h, sock, whole, start, more, done) && Ready(View(), sock.inbox)
      modifies Footprint(), sock
      ensures Ok() && |sock.inbox| < old(|sock.inbox|)
      ensures sock.failures == old(sock.failures) + if ok then 0 else 1
      ensures ok ==> Standing(h, sock, whole, start, more', done')
      ensures ok ==> blocked == !Ready(View(), sock.inbox)
      ensures !ok ==> CutShort(sock.outbox, start, ResponseFrames(Link.Replies(h, whole.out)))
    {
      ghost var before := sock.outbox;
      ghost var out;
      ok, out, more' := ServeTurn(h, sock);
      done' := done + out;
      blocked := WouldBlock(sock);
      if ok {
        ServedMore(h, whole, start, more, before, done, more', sock.outbox, out);
      } else {
        ServedCut(h, whole, start, more, before, done, more', sock.outbox, out);
      }
    }

    /** The server loop, against the run `whole` that it is about to perform. */
    method Loop(h: Link.Handler, sock: Socket, ghost whole: Ran) returns (ok: bool, ghost more: Ran,
                ghost done: seq<Command>)
      requires Ok() && whole == Run(View(), sock.inbox)
      modifies Footprint(), sock
      ensures Ok() && sock.failures == old(sock.failures) + if ok then 0 else 1
      ensures ok ==> Standing(h, sock, whole, old(sock.outbox), more, done) && !Ready(View(), sock.inbox)
      ensures !ok ==> CutShort(sock.outbox, old(sock.outbox), ResponseFrames(Link.Replies(h, whole.out)))
    {
      ghost var start := sock.outbox;
      more, done := whole, [];
      ServedNone(h, whole, start);
      ok := true;
      var blocked := WouldBlock(sock);
      while ok && !blocked
        invariant Ok() && sock.failures == old(sock.failures) + if ok then 0 else 1
        invariant ok ==> Standing(h, sock, whole, start, more, done) && blocked == !Ready(View(), sock.inbox)
        invariant !ok ==> CutShort(sock.outbox, start, ResponseFrames(Link.Replies(h, whole.out)))
        decreases |sock.inbox|
      {
        ok, blocked, more, done := LoopBody(h, sock, whole, start, more, done);
      }
    }

    /** The server task until the socket runs dry or a send fails: every command of the stream, from wherever the
        receiver stands, is answered by the handler's framed reply, in order. */
    method Serve(h: Link.Handler, sock: Socket) returns (ok: bool)
      requires Ok()
      modifies Footprint(), sock
      ensures Ok() && sock.failures == old(sock.failures) + if ok then 0 else 1
      ensures var r := Run(old(View()), old(sock.inbox));
              var answers := ResponseFrames(Link.Replies(h, r.out));
              if ok then View() == r.rx && sock.inbox == r.rest && sock.outbox == old(sock.outbox) + answers
              else CutShort(sock.outbox, old(sock.outbox), answers)
    {
      ghost var whole := Run(View(), sock.inbox);
      ghost var more, done;
      ok, more, done := Loop(h, sock, whole);
      if ok {
        ServedAll(h, whole, old(sock.outbox), more, sock.outbox, done);
      }
    }
  }

  /** The commands `done` have been dispatched and answered; `more` is still to run. */
  ghost predicate Served(h: Link.Handler, whole: Ran, start: seq<byte>, more: Ran, outbox: seq<byte>,
                         done: seq<Command>)
  {
    whole == more.Behind(done) && outbox == start + ResponseFrames(Link.Replies(h, done))
  }

  lemma ServedNone(h: Link.Handler, whole: Ran, start: seq<byte>)
    ensures Served(h, whole, start, whole, start, [])
  {
    whole.BehindTwice([], []);
    assert start + [] == start;
  }

  lemma ServedMore(h: Link.Handler, whole: Ran, start: seq<byte>, more: Ran, outbox: seq<byte>, done: seq<Command>,
                   more': Ran, outbox': seq<byte>, out: seq<Command>)
    requires Served(h, whole, start, more, outbox, done)
    requires more == more'.Behind(out) && outbox' == outbox + ResponseFrames(Link.Replies(h, out))
    ensures Served(h, whole, start, more', outbox', done + out)
  {
    more'.BehindTwice(done, out);
    RepliesAppendFrames(h, done, out);
    Associate(start, ResponseFrames(Link.Replies(h, done)), ResponseFrames(Link.Replies(h, out)));
  }

  lemma Associate(a: seq<byte>, b: seq<byte>, c: seq<byte>)
    ensures a + (b + c) == a + b + c
  {
  }

  lemma ServedAll(h: Link.Handler, whole: Ran, start: seq<byte>, more: Ran, outbox: seq<byte>, done: seq<Command>)
    requires Served(h, whole, start, more, outbox, done) && more.out == []
    ensures whole.rx == more.rx && whole.rest == more.rest
    ensures outbox == start + ResponseFrames(Link.Replies(h, whole.out))
  {
    assert done + [] == done;
  }

  lemma ServedCut(h: Link.Handler, whole: Ran, start: seq<byte>, more: Ran, outbox: seq<byte>, done: seq<Command>,
                  more': Ran, outbox': seq<byte>, out: seq<Command>)
    requires Served(h, whole, start, more, outbox, done)
    requires more == more'.Behind(out) && CutShort(outbox', outbox, ResponseFrames(Link.Replies(h, out)))
    ensures CutShort(outbox', start, ResponseFrames(Link.Replies(h, whole.out)))
  {
    more'.BehindTwice(done, out);
    RepliesAppendFrames(h, done, out);
    RepliesAppendFrames(h, done + out, more'.out);
    CutShortBehind(outbox', start, ResponseFrames(Link.Replies(h, done)), ResponseFrames(Link.Replies(h, out)),
                   ResponseFrames(Link.Replies(h, more'.out)));
  }

  lemma OneReply(h: Link.Handler, c: Command)
    ensures ResponseFrames(Link.Replies(h, [c])) == ResponseFrame(Link.Reply(h, c))
  {
    assert ResponseFrames(Link.Replies(h, [c])) == ResponseFrame(Link.Reply(h, c)) + [];
  }

  lemma RepliesAppendFrames(h: Link.Handler, a: seq<Command>, b: seq<Command>)
    ensures ResponseFrames(Link.Replies(h, a + b))
         == ResponseFrames(Link.Replies(h, a)) + ResponseFrames(Link.Replies(h, b))
  {
    Link.RepliesAppend(h, a, b);
    ResponseFramesAppend(Link.Replies(h, a), Link.Replies(h, b));
  }
}
