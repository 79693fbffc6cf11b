/** The host's transaction: frame a command, send it in chunks, and wait for the response under a timeout. */
module HostTransaction {
  import opened Octets
  import opened Matcher
  import opened Frames
  import opened Sockets
  import opened HostStream
  import opened Framers
  import T = TargetStream

  /** Every continuation of the bytes `seen` is received just as it would be from the state `rx`. */
  ghost predicate Reached(seen: seq<byte>, rx: Rx)
  {
    && Valid(rx)
    && forall z {:trigger Receive(seen + z)} :: Receive(seen + z) == Run(rx, z).After(|seen|)
  }

  lemma ReachedStart()
    ensures Reached([], START)
  {
    forall z
      ensures Receive([] + z) == Run(START, z).After(0)
    {
      assert [] + z == z;
    }
  }

  lemma ReachedMore(all: seq<byte>, seen: seq<byte>, rx: Rx, chunk: seq<byte>, rest: seq<byte>)
    requires Reached(seen, rx) && all == seen + (chunk + rest)
    requires |chunk| == Need(rx) && Ready(rx, chunk) && Turn(rx, chunk).More?
    ensures Reached(seen + chunk, Turn(rx, chunk).rx) && all == seen + chunk + rest
  {
    assert seen + (chunk + rest) == seen + chunk + rest;
    forall z
      ensures Receive(seen + chunk + z) == Run(Turn(rx, chunk).rx, z).After(|seen + chunk|)
    {
      assert seen + chunk + z == seen + (chunk + z);
      RunTurn(rx, chunk, z);
    }
  }

  lemma ReachedEnd(all: seq<byte>, seen: seq<byte>, rx: Rx, chunk: seq<byte>, rest: seq<byte>)
    requires Reached(seen, rx) && all == seen + (chunk + rest)
    requires |chunk| == Need(rx) && Ready(rx, chunk) && Turn(rx, chunk).Received?
    ensures var used := |all| - |rest|;
            rest == all[used..] && Receive(all) == Got(Turn(rx, chunk).response, used)
  {
    RunTurn(rx, chunk, rest);
  }

  lemma ReachedStop(all: seq<byte>, seen: seq<byte>, rx: Rx, chunk: seq<byte>, rest: seq<byte>)
    requires Reached(seen, rx) && all == seen + (chunk + rest) && !Ready(rx, chunk)
    ensures var used := |all| - |rest|;
            rest == all[used..] && Receive(all[..used]).Starved?
    ensures chunk == [] && rx.phase.Data? && rx.length > CAPACITY ==> Receive(all).Starved?
  {
    assert all[..|all| - |rest|] == seen + chunk;
  }

  datatype Pass = Continues | Completed | TimedOut

  /** How a call of the receive routine ends. `Oversized`: the frame announces more than the buffer holds, where the
      original would write past it. */
  datatype Ended = Success | TimeOut | Oversized

  /** The host's incoming packet, with the receive routine that fills it. */
  class Receiver {
    var phase: Phase
    var index: nat
    var status: i16
    var reserved: i16
    var length: u32
    var group: u16
    var unit: u16
    const data: array<byte>
    const receiveBuffer: array<byte>

    constructor ()
      ensures Shape() && fresh(data) && fresh(receiveBuffer)
    {
      phase, index, status, reserved, length, group, unit := Header, 0, 0, 0, 0, 0, 0;
      data := new byte[MAX_TCPMSG_SIZE];
      receiveBuffer := new byte[MAX_TCPMSG_SIZE];
    }

    ghost predicate Shape() {
      data.Length == receiveBuffer.Length == MAX_TCPMSG_SIZE && data != receiveBuffer
    }

    ghost function View(): Rx
      requires Shape()
      reads this, data
    {
      Rx(phase, index, status, reserved, length, group, unit,
         if phase.Footer? && length <= data.Length then data[..length] else [])
    }

    ghost predicate Ok()
      reads this, data
    {
      Shape() && Valid(View())
    }

    /** One read of a fixed-size field. */
    method Field(sock: Socket, n: nat) returns (chunk: seq<byte>, complete: bool)
      requires n > 0
      modifies sock`inbox, sock`timeOuts
      ensures old(sock.inbox) == chunk + sock.inbox
      ensures |chunk| <= n && complete == (|chunk| == n)
      ensures sock.timeOuts == old(sock.timeOuts) + if complete then 0 else 1
    {
      chunk := sock.RecvOrTimeOut(n, n);
      complete := |chunk| == n;
    }

    method HeaderPass(sock: Socket) returns (pass: Pass, ghost chunk: seq<byte>)
      requires Ok() && phase.Header?
      modifies `phase, `index, sock`inbox, sock`timeOuts
      ensures Ok() && PassSpec(old(View()), pass, chunk, View()) && old(sock.inbox) == chunk + sock.inbox
      ensures sock.timeOuts == old(sock.timeOuts) + if pass.TimedOut? then 1 else 0
    {
      var got, complete := Field(sock, 1);
      chunk := got;
      if !complete {
        return TimedOut, chunk;
      }
      if got[0] == RESPONSE_HEADER[index] {
        index := index + 1;
      } else if got[0] == RESPONSE_HEADER[0] {
        index := 1;
      } else {
        index := 0;
      }
      if index >= |RESPONSE_HEADER| {
        phase := Status;
        index := 1;
      }
      pass := Continues;
    }

    /** Two reads: a timeout between them leaves two bytes of the field consumed. */
    method StatusPass(sock: Socket) returns (pass: Pass, ghost chunk: seq<byte>)
      requires Ok() && phase.Status?
      modifies `phase, `index, `status, `reserved, sock`inbox, sock`timeOuts
      ensures pass.TimedOut? || Ok()
      ensures pass.TimedOut? || PassSpec(old(View()), pass, chunk, View())
      ensures pass.TimedOut? ==> |chunk| < 4
      ensures old(sock.inbox) == chunk + sock.inbox
      ensures sock.timeOuts == old(sock.timeOuts) + if pass.TimedOut? then 1 else 0
    {
      var first, complete := Field(sock, 2);
      chunk := first;
      if !complete {
        return TimedOut, chunk;
      }
      NetworkOrder16(0, first);
      status := Signed16(Htons(Load16(first)));
      var second;
      second, complete := Field(sock, 2);
      chunk := first + second;
      assert first + (second + sock.inbox) == chunk + sock.inbox;
      if !complete {
        return TimedOut, chunk;
      }
      NetworkOrder16(0, second);
      reserved := Signed16(Htons(Load16(second)));
      assert chunk[..2] == first && chunk[2..] == second;
      phase := Length;
      index := 1;
      pass := Continues;
    }

    method LengthPass(sock: Socket) returns (pass: Pass, ghost chunk: seq<byte>)
      requires Ok() && phase.Length?
      modifies `phase, `index, `length, sock`inbox, sock`timeOuts
      ensures Ok() && PassSpec(old(View()), pass, chunk, View()) && old(sock.inbox) == chunk + sock.inbox
      ensures sock.timeOuts == old(sock.timeOuts) + if pass.TimedOut? then 1 else 0
    {
      var got, complete := Field(sock, 4);
      chunk := got;
      if !complete {
        return TimedOut, chunk;
      }
      NetworkOrder32(0, got);
      length := Htonl(Load32(got));
      phase := Ids;
      index := 1;
      pass := Continues;
    }

    method IdsPass(sock: Socket) returns (pass: Pass, ghost chunk: seq<byte>)
      requires Ok() && phase.Ids?
      modifies `phase, `index, `group, `unit, sock`inbox, sock`timeOuts
      ensures Ok() && PassSpec(old(View()), pass, chunk, View()) && old(sock.inbox) == chunk + sock.inbox
      ensures sock.timeOuts == old(sock.timeOuts) + if pass.TimedOut? then 1 else 0
    {
      var got, complete := Field(sock, 2);
      chunk := got;
      if !complete {
        return TimedOut, chunk;
      }
      NetworkOrder16(0, got);
      if index > 0 {
        group := Htons(Load16(got));
        index := 0;
      } else {
        unit := Htons(Load16(got));
        index := 0;
        if length != 0 {
          phase := Data;
        } else {
          assert data[..0] == [];
          phase := Footer;
        }
      }
      pass := Continues;
    }

    /** Whatever short reads the socket makes, the payload stored is the announced number of bytes, in order. */
    method DataPass(sock: Socket) returns (pass: Pass, ghost chunk: seq<byte>)
      requires Ok() && phase.Data? && length <= CAPACITY
      modifies `phase, `index, data, receiveBuffer, sock`inbox, sock`timeOuts
      ensures Ok() && PassSpec(old(View()), pass, chunk, View()) && old(sock.inbox) == chunk + sock.inbox
      ensures sock.timeOuts == old(sock.timeOuts) + if pass.TimedOut? then 1 else 0
    {
      var counter: nat := 0;
      chunk := [];
      while counter < length
        invariant phase == old(phase) && index == old(index)
        invariant counter == |chunk| <= length
        invariant chunk == receiveBuffer[..counter]
        invariant old(sock.inbox) == chunk + sock.inbox
        invariant sock.timeOuts == old(sock.timeOuts)
        decreases length - counter
      {
        var got := sock.RecvOrTimeOut(1, length - counter);
        assert chunk + (got + sock.inbox) == chunk + got + sock.inbox;
        chunk := chunk + got;
        if got == [] {
          return TimedOut, chunk;
        }
        counter := Append(receiveBuffer, counter, got);
      }
      receiveBuffer[counter] := 0;
      assert receiveBuffer[..counter] == chunk;
      var _ := Append(data, 0, receiveBuffer[..counter]);
      assert data[..length] == chunk;
      phase, index := Footer, 0;
      pass := Continues;
    }

    method FooterPass(sock: Socket) returns (pass: Pass, ghost chunk: seq<byte>)
      requires Ok() && phase.Footer?
      modifies `phase, `index, sock`inbox, sock`timeOuts
      ensures !pass.Completed? ==> Ok()
      ensures !pass.Completed? ==> PassSpec(old(View()), pass, chunk, View())
      ensures pass.Completed? ==>
        |chunk| == 1 && length <= CAPACITY
        && Turn(old(View()), chunk) == Received(Response(status, group, unit, data[..length]))
      ensures old(sock.inbox) == chunk + sock.inbox
      ensures sock.timeOuts == old(sock.timeOuts) + if pass.TimedOut? then 1 else 0
    {
      var got, complete := Field(sock, 1);
      chunk := got;
      if !complete {
        return TimedOut, chunk;
      }
      if got[0] == RESPONSE_FOOTER[index] {
        index := index + 1;
      } else if got[0] == RESPONSE_FOOTER[0] {
        index := 1;
      } else {
        index := 0;
      }
      if index >= |RESPONSE_FOOTER| {
        phase := Header;
        index := 0;
        pass := Completed;
      } else {
        pass := Continues;
      }
    }

    /** How a call may end that began with `all` unread and leaves `rest`. */
    ghost predicate Reports(all: seq<byte>, rest: seq<byte>, ended: Ended)
      requires Shape()
      reads this, data
    {
      && |rest| <= |all|
      && var used := |all| - |rest|;
      && rest == all[used..]
      && if ended.Success? then
           && length <= CAPACITY
           && Receive(all) == Got(Response(status, group, unit, data[..length]), used)
         else Receive(all[..used]).Starved? && (ended.Oversized? ==> Receive(all).Starved?)
    }

    /** The receive routine: a response received is the one the byte stream determines, and exactly its bytes are
        consumed; a call that times out has consumed bytes that hold no complete response. When the bytes hold one and
        no read times out, it is received. */
    method ReceiveResponse(sock: Socket) returns (ended: Ended)
      requires Shape()
      modifies this, data, receiveBuffer, sock`inbox, sock`timeOuts
      ensures Reports(old(sock.inbox), sock.inbox, ended)
      ensures sock.timeOuts == old(sock.timeOuts) + if ended.TimeOut? then 1 else 0
      ensures Receive(old(sock.inbox)).Got? && sock.timeOuts == old(sock.timeOuts) ==> ended.Success?
    {
      phase, index, status, reserved, length, group, unit := Header, 0, 0, 0, 0, 0, 0;
      ghost var all, seen: seq<byte> := sock.inbox, [];
      ReachedStart();
      assert [] + sock.inbox == sock.inbox;
      var over := false;
      ended := Success;
      while !over
        invariant !over ==> Ok() && Reached(seen, View()) && all == seen + sock.inbox
        invariant over ==> Reports(all, sock.inbox, ended)
        invariant sock.timeOuts == old(sock.timeOuts) + if over && ended.TimeOut? then 1 else 0
        decreases !over, |sock.inbox|
      {
        over, ended, seen := LoopBody(sock, all, seen);
      }
    }

    method LoopBody(sock: Socket, ghost all: seq<byte>, ghost seen: seq<byte>)
      returns (over: bool, ended: Ended, ghost now: seq<byte>)
      requires Ok() && Reached(seen, View()) && all == seen + sock.inbox
      modifies this, data, receiveBuffer, sock`inbox, sock`timeOuts
      ensures !over ==> Ok() && Reached(now, View()) && all == now + sock.inbox && |sock.inbox| < old(|sock.inbox|)
      ensures over ==> Reports(all, sock.inbox, ended)
      ensures sock.timeOuts == old(sock.timeOuts) + if over && ended.TimeOut? then 1 else 0
    {
      ghost var view := View();
      now := seen;
      if phase.Data? && length > CAPACITY {
        assert seen + ([] + sock.inbox) == seen + sock.inbox;
        ReachedStop(all, seen, view, [], sock.inbox);
        return true, Oversized, now;
      }
      var pass;
      ghost var chunk;
      pass, chunk := OnePass(sock);
      match pass
      case TimedOut =>
        ReachedStop(all, seen, view, chunk, sock.inbox);
        return true, TimeOut, now;
      case Completed =>
        ReachedEnd(all, seen, view, chunk, sock.inbox);
        return true, Success, now;
      case Continues =>
        ReachedMore(all, seen, view, chunk, sock.inbox);
        return false, Success, seen + chunk;
    }

    method OnePass(sock: Socket) returns (pass: Pass, ghost chunk: seq<byte>)
      requires Ok() && (phase.Data? ==> length <= CAPACITY)
      modifies this, data, receiveBuffer, sock`inbox, sock`timeOuts
      ensures old(sock.inbox) == chunk + sock.inbox
      ensures pass.Continues? ==> Ok() && PassSpec(old(View()), pass, chunk, View())
      ensures pass.TimedOut? ==> |chunk| < Need(old(View()))
      ensures pass.Completed? ==>
        && |chunk| == Need(old(View())) && Ready(old(View()), chunk)
        && length <= CAPACITY
        && Turn(old(View()), chunk) == Received(Response(status, group, unit, data[..length]))
      ensures sock.timeOuts == old(sock.timeOuts) + if pass.TimedOut? then 1 else 0
    {
      match phase
      case Header => pass, chunk := HeaderPass(sock);
      case Status => pass, chunk := StatusPass(sock);
      case Length => pass, chunk := LengthPass(sock);
      case Ids => pass, chunk := IdsPass(sock);
      case Data => pass, chunk := DataPass(sock);
      case Footer => pass, chunk := FooterPass(sock);
    }
  }

  /** A pass that continues made the abstract turn on exactly the bytes it needed; one that timed out read fewer. */
  ghost predicate PassSpec(before: Rx, pass: Pass, chunk: seq<byte>, after: Rx)
    requires Valid(before)
  {
    match pass
    case Continues => |chunk| == Need(before) && Ready(before, chunk) && Turn(before, chunk) == More(after)
    case TimedOut => |chunk| < Need(before)
    case Completed => false
  }

  /** `Overrun`: the frame is longer than the transmit buffer, past which the original would write. */
  datatype Result = InvalidLength | InvalidTimeOut | Overrun | LinkTimeOut | Oversize | Answered(response: Response)

  /** The first half of a transaction: validate, frame, send. A command with unit id zero is neither validated nor sent.
      `spilled`: the copy of the parameters, which comes before any check, ran past its structure. */
  method Transmit(sock: Socket, packet: CommandPacket, buffer: array<byte>, group: u16, unit: u16, payload: seq<byte>,
                  timeOut: nat, maxTimeOut: nat)
    returns (refused: Option<Result>, spilled: bool)
    requires buffer.Length == packet.data.Length == MAX_TCPMSG_SIZE && buffer != packet.data
    modifies packet, packet.data, buffer, sock`outbox, sock`asked, sock`failures
    ensures spilled <==> |payload| > MAX_TCPMSG_SIZE
    ensures refused == Some(InvalidLength) <==> unit != 0 && |payload| > MAX_TCPMSG_SIZE
    ensures refused == Some(InvalidTimeOut) <==> unit != 0 && |payload| <= MAX_TCPMSG_SIZE && timeOut > maxTimeOut
    ensures refused == Some(Overrun) <==>
      unit != 0 && timeOut <= maxTimeOut && MAX_TCPMSG_SIZE - COMMAND_OVERHEAD < |payload| <= MAX_TCPMSG_SIZE
    ensures refused in {None, Some(InvalidLength), Some(InvalidTimeOut), Some(Overrun), Some(LinkTimeOut)}
    ensures sock.failures == old(sock.failures) + if refused == Some(LinkTimeOut) then 1 else 0
    ensures sock.inbox == old(sock.inbox) && sock.timeOuts == old(sock.timeOuts)
    ensures unit == 0 || refused in {Some(InvalidLength), Some(InvalidTimeOut), Some(Overrun)} ==>
      sock.outbox == old(sock.outbox)
    ensures unit == 0 ==> refused == None
    ensures unit != 0 && refused == None ==>
      |payload| <= CAPACITY && sock.outbox == old(sock.outbox) + CommandFrame(Command(group, unit, payload))
    ensures refused == Some(LinkTimeOut) ==>
      |payload| <= CAPACITY && CutShort(sock.outbox, old(sock.outbox), CommandFrame(Command(group, unit, payload)))
  {
    spilled := |payload| > MAX_TCPMSG_SIZE;
    if unit != 0 {
      if |payload| > MAX_TCPMSG_SIZE {
        return Some(InvalidLength), spilled;
      }
      if timeOut > maxTimeOut {
        return Some(InvalidTimeOut), spilled;
      }
      if |payload| + COMMAND_OVERHEAD > buffer.Length {
        return Some(Overrun), spilled;
      }
      var n := FrameCommand(packet, buffer, Command(group, unit, payload));
      var sent := SendChunked(sock, buffer, n);
      if !sent {
        return Some(LinkTimeOut), spilled;
      }
    }
    refused := None;
  }

  /** The second half: wait for a response. */
  method Await(sock: Socket, receiver: Receiver) returns (result: Result)
    requires receiver.Shape()
    modifies receiver, receiver.data, receiver.receiveBuffer, sock`inbox, sock`timeOuts
    ensures result.LinkTimeOut? || result.Oversize? || result.Answered?
    ensures sock.timeOuts == old(sock.timeOuts) + if result.LinkTimeOut? then 1 else 0
    ensures sock.outbox == old(sock.outbox) && sock.failures == old(sock.failures)
    ensures |sock.inbox| <= |old(sock.inbox)|
    ensures var used := |old(sock.inbox)| - |sock.inbox|;
            && sock.inbox == old(sock.inbox)[used..]
            && (if result.Answered? then Receive(old(sock.inbox)) == Got(result.response, used)
                else Receive(old(sock.inbox)[..used]).Starved?)
    ensures result.Oversize? ==> Receive(old(sock.inbox)).Starved?
  {
    var ended := receiver.ReceiveResponse(sock);
    match ended
    case Success =>
      result := Answered(Response(receiver.status, receiver.group, receiver.unit, receiver.data[..receiver.length]));
    case TimeOut => result := LinkTimeOut;
    case Oversized => result := Oversize;
  }

  /** A target between frames makes exactly one command of a frame. */
  lemma Dispatches(c: Command)
    ensures forall rx: T.Rx :: T.Valid(rx) && T.Idle(rx) ==>
      var r := T.Run(rx, CommandFrame(c));
      r.out == [c] && r.rest == [] && T.Idle(r.rx)
  {
    assert CommandFrames([c]) == CommandFrame(c) + [] == CommandFrame(c);
    forall rx: T.Rx | T.Valid(rx) && T.Idle(rx)
      ensures var r := T.Run(rx, CommandFrame(c)); r.out == [c] && r.rest == [] && T.Idle(r.rx)
    {
      T.TransparentFrames(rx, [c]);
    }
  }

  /** One transaction. Unless it is refused or a write fails, a target between frames makes of the bytes sent exactly
      the command asked for, and the result is the stream's first response unless a read times out. */
  method CommandTransaction(sock: Socket, packet: CommandPacket, receiver: Receiver, buffer: array<byte>,
                            group: u16, unit: u16, payload: seq<byte>, timeOut: nat, maxTimeOut: nat)
    returns (result: Result, spilled: bool)
    requires receiver.Shape()
    requires buffer.Length == packet.data.Length == MAX_TCPMSG_SIZE
    requires buffer != packet.data && {buffer, packet.data} !! {receiver.data, receiver.receiveBuffer}
    modifies sock, packet, packet.data, buffer, receiver, receiver.data, receiver.receiveBuffer
    ensures spilled <==> |payload| > MAX_TCPMSG_SIZE
    ensures result.InvalidLength? <==> unit != 0 && |payload| > MAX_TCPMSG_SIZE
    ensures result.InvalidTimeOut? <==> unit != 0 && |payload| <= MAX_TCPMSG_SIZE && timeOut > maxTimeOut
    ensures result.Overrun? <==>
      unit != 0 && timeOut <= maxTimeOut && MAX_TCPMSG_SIZE - COMMAND_OVERHEAD < |payload| <= MAX_TCPMSG_SIZE
    ensures result.InvalidLength? || result.InvalidTimeOut? || result.Overrun? ==>
      sock.outbox == old(sock.outbox) && sock.inbox == old(sock.inbox)
    ensures sock.failures + sock.timeOuts
         == old(sock.failures + sock.timeOuts) + if result.LinkTimeOut? then 1 else 0
    ensures unit == 0 ==> sock.outbox == old(sock.outbox) && sock.failures == old(sock.failures)
    ensures sock.failures > old(sock.failures) ==>
      && |payload| <= CAPACITY && sock.inbox == old(sock.inbox)
      && CutShort(sock.outbox, old(sock.outbox), CommandFrame(Command(group, unit, payload)))
    ensures unit != 0 && sock.failures == old(sock.failures)
            && (result.LinkTimeOut? || result.Oversize? || result.Answered?) ==>
      && |payload| <= CAPACITY && old(sock.outbox) <= sock.outbox
      && var sent := sock.outbox[|old(sock.outbox)|..];
      && sent == CommandFrame(Command(group, unit, payload))
      && forall rx: T.Rx :: T.Valid(rx) && T.Idle(rx) ==> T.Run(rx, sent).out == [Command(group, unit, payload)]
    ensures |sock.inbox| <= |old(sock.inbox)|
    ensures var used := |old(sock.inbox)| - |sock.inbox|;
            && sock.inbox == old(sock.inbox)[used..]
            && (if result.Answered? then Receive(old(sock.inbox)) == Got(result.response, used)
                else Receive(old(sock.inbox)[..used]).Starved?)
    ensures result.Oversize? ==> Receive(old(sock.inbox)).Starved?
  {
    var refused;
    refused, spilled := Transmit(sock, packet, buffer, group, unit, payload, timeOut, maxTimeOut);
    if refused.Some? {
      assert old(sock.inbox)[..0] == [];
      return refused.value, spilled;
    }
    if unit != 0 {
      Dispatches(Command(group, unit, payload));
      assert sock.outbox[|old(sock.outbox)|..] == CommandFrame(Command(group, unit, payload));
    }
    result := Await(sock, receiver);
  }
}
