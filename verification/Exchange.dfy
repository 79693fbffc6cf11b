/** One exchange through both ends' own code: the host frames and sends, the target serves, the host receives. */
module Exchange {
  import opened Octets
  import opened Frames
  import opened Sockets
  import opened Framers
  import T = TargetStream
  import H = HostStream
  import Link
  import TargetServer
  import HostTransaction

  lemma AnswerReads(r: Response)
    ensures H.Receive(ResponseFrame(r)) == H.Got(r, |ResponseFrame(r)|)
  {
    H.ResponseRoundTrip([], r, []);
    assert [] + ResponseFrame(r) + [] == ResponseFrame(r);
  }

  /** Commands that arrive at a target between frames, and their answers. */
  lemma CommandsRun(rx: T.Rx, cs: seq<Command>)
    requires T.Valid(rx) && T.Idle(rx)
    ensures var r := T.Run(rx, CommandFrames(cs));
            r.out == cs && r.rest == [] && T.Idle(r.rx)
  {
    T.TransparentFrames(rx, cs);
  }

  /** The target's half: commands in, their answers out. */
  method Answer(h: Link.Handler, ghost cs: seq<Command>, server: TargetServer.Server, sock: Socket)
    returns (ok: bool)
    requires server.Ok() && T.Idle(server.View())
    requires sock.inbox == CommandFrames(cs) && sock.outbox == []
    modifies server.Footprint(), sock
    ensures server.Ok() && sock.failures == old(sock.failures) + if ok then 0 else 1
    ensures ok ==> T.Idle(server.View()) && sock.inbox == [] && sock.outbox == ResponseFrames(Link.Replies(h, cs))
  {
    CommandsRun(server.View(), cs);
    ok := server.Serve(h, sock);
    NothingAdded(ResponseFrames(Link.Replies(h, cs)));
  }

  /** The host's bytes carried out, and the answers to them carried back. */
  method RoundTrip(h: Link.Handler, ghost cs: seq<Command>, hostSock: Socket, server: TargetServer.Server,
                   targetSock: Socket)
    returns (served: bool)
    requires server.Ok() && T.Idle(server.View()) && hostSock != targetSock
    requires hostSock.outbox == CommandFrames(cs) && targetSock.outbox == []
    modifies hostSock`inbox, hostSock`outbox, targetSock, server.Footprint()
    ensures server.Ok() && targetSock.failures == old(targetSock.failures) + if served then 0 else 1
    ensures hostSock.failures == old(hostSock.failures) && hostSock.timeOuts == old(hostSock.timeOuts)
    ensures served ==>
      T.Idle(server.View()) && hostSock.inbox == ResponseFrames(Link.Replies(h, cs)) && targetSock.inbox == []
  {
    targetSock.inbox, hostSock.outbox := hostSock.outbox, [];
    served := Answer(h, cs, server, targetSock);
    hostSock.inbox, targetSock.outbox := targetSock.outbox, [];
  }

  /** The commands a transaction that is not refused sends: none for unit zero. */
  ghost function Asked(group: u16, unit: u16, payload: seq<byte>): seq<Command> {
    if unit == 0 || |payload| > CAPACITY then [] else [Command(group, unit, payload)]
  }

  lemma AskedFrames(group: u16, unit: u16, payload: seq<byte>)
    ensures unit == 0 ==> CommandFrames(Asked(group, unit, payload)) == []
    ensures unit != 0 && |payload| <= CAPACITY ==>
      CommandFrames(Asked(group, unit, payload)) == [] + CommandFrame(Command(group, unit, payload))
  {
    if unit != 0 && |payload| <= CAPACITY {
      NothingAdded(CommandFrame(Command(group, unit, payload)));
    }
  }

  /** What the host can receive of the answers. */
  lemma AnswersRead(h: Link.Handler, group: u16, unit: u16, payload: seq<byte>)
    ensures var all := ResponseFrames(Link.Replies(h, Asked(group, unit, payload)));
            if unit == 0 || |payload| > CAPACITY then H.Receive(all).Starved?
            else H.Receive(all) == H.Got(Link.Reply(h, Command(group, unit, payload)), |all|)
  {
    if unit != 0 && |payload| <= CAPACITY {
      var c := Command(group, unit, payload);
      TargetServer.OneReply(h, c);
      AnswerReads(Link.Reply(h, c));
    }
  }

  /** From a quiet link, exactly when a command is sent, no write fails and no read times out, the host's code gets back
      an answer: what the handler says to the command asked for. The link is then quiet again. */
  method Exchange(h: Link.Handler, group: u16, unit: u16, payload: seq<byte>, timeOut: nat, maxTimeOut: nat,
                  packet: CommandPacket, buffer: array<byte>, hostSock: Socket, server: TargetServer.Server,
                  targetSock: Socket, receiver: HostTransaction.Receiver)
    returns (answer: Option<Response>)
    requires server.Ok() && T.Idle(server.View()) && receiver.Shape()
    requires hostSock != targetSock && packet.data != buffer
    requires packet.data.Length == buffer.Length == MAX_TCPMSG_SIZE
    requires packet.data !in server.Footprint() && buffer !in server.Footprint()
    requires receiver.data !in server.Footprint() && receiver.receiveBuffer !in server.Footprint()
    requires hostSock.outbox == hostSock.inbox == targetSock.outbox == targetSock.inbox == []
    modifies packet, packet.data, buffer, hostSock, targetSock, server.Footprint()
    modifies receiver, receiver.data, receiver.receiveBuffer
    ensures answer.Some? <==>
      && unit != 0 && |payload| + COMMAND_OVERHEAD <= MAX_TCPMSG_SIZE && timeOut <= maxTimeOut
      && hostSock.failures == old(hostSock.failures) && hostSock.timeOuts == old(hostSock.timeOuts)
      && targetSock.failures == old(targetSock.failures)
    ensures answer.Some? ==>
      var a := h(group, unit, payload);
      answer.value == Response(a.status, group, a.unit, a.payload)
    ensures answer.Some? ==> server.Ok() && T.Idle(server.View())
    ensures answer.Some? ==> hostSock.inbox == targetSock.inbox == []
  {
    answer := None;
    AskedFrames(group, unit, payload);
    AnswersRead(h, group, unit, payload);
    var refused, _ :=
      HostTransaction.Transmit(hostSock, packet, buffer, group, unit, payload, timeOut, maxTimeOut);
    if refused.Some? {
      return;
    }
    ghost var cs := Asked(group, unit, payload);
    var served := RoundTrip(h, cs, hostSock, server, targetSock);
    if served {
      var result := HostTransaction.Await(hostSock, receiver);
      if result.Answered? {
        answer := Some(result.response);
      }
    }
  }
}
