/** The two framers, which fill a transmit buffer in place, and the two send loops, which put it on the wire. */
module Framers {
  import opened Octets
  import opened Frames
  import opened Sockets
  import T = TargetStream

  /** The host's outgoing packet: identifiers are stored already swapped, as `htons` left them. */
  class CommandPacket {
    var header: T.Quad
    var length: u32
    var group: u16
    var unit: u16
    const data: array<byte>
    var footer: T.Quad

    constructor ()
      ensures fresh(data) && data.Length == MAX_TCPMSG_SIZE
    {
      header, footer := [0, 0, 0, 0], [0, 0, 0, 0];
      length, group, unit := 0, 0, 0;
      data := new byte[MAX_TCPMSG_SIZE];
    }

    /** Fills the packet from a command. */
    method Load(c: Command)
      requires |c.payload| <= data.Length
      modifies this, data
      ensures header == COMMAND_HEADER && footer == COMMAND_FOOTER && length == |c.payload|
      ensures group == Htons(c.group) && unit == Htons(c.unit) && data[..length] == c.payload
    {
      header, footer := COMMAND_HEADER, COMMAND_FOOTER;
      group, unit := Htons(c.group), Htons(c.unit);
      length := |c.payload|;
      var _ := Append(data, 0, c.payload);
    }

    /** Writes adjacent fields from the start of `buffer`, touches nothing beyond them, and leaves the packet's own
        length field in network order. */
    method FrameTxBuffer(buffer: array<byte>) returns (n: nat)
      requires buffer != data
      requires length <= data.Length && length + COMMAND_OVERHEAD <= buffer.Length
      modifies buffer, `length
      ensures length == Htonl(old(length))
      ensures n == old(length) + COMMAND_OVERHEAD
      ensures buffer[..n] == header + Wire32(old(length)) + (Memory16(group) + Memory16(unit)) + data[..old(length)]
                             + footer
      ensures forall i :: n <= i < buffer.Length ==> buffer[i] == old(buffer[i])
    {
      var messageLength := length;
      length := Htonl(length);
      NetworkOrder32(messageLength, header);
      assert buffer[..0] + header == header;
      n := Append(buffer, 0, header);
      n := Append(buffer, n, Memory32(length));
      n := Append(buffer, n, Memory16(group) + Memory16(unit));
      n := Append(buffer, n, data[..messageLength]);
      n := Append(buffer, n, footer);
    }
  }

  /** The target's outgoing packet. */
  class ResponsePacket {
    var header: T.Quad
    var status: u16
    var reserved: u16
    var length: u32
    var group: u16
    var unit: u16
    const data: array<byte>
    var footer: T.Quad

    constructor ()
      ensures fresh(data) && data.Length == MAX_TCPMSG_SIZE
    {
      header, footer := [0, 0, 0, 0], [0, 0, 0, 0];
      status, reserved, length, group, unit := 0, 0, 0, 0, 0;
      data := new byte[MAX_TCPMSG_SIZE];
    }

    /** Completes a packet whose identifiers and data the dispatcher has filled in host order. */
    method Compose(msgStatus: i16, size: u32)
      modifies this
      ensures header == RESPONSE_HEADER && footer == RESPONSE_FOOTER
      ensures status == Htons(Bits16(msgStatus)) && reserved == 0 && length == size
      ensures group == Htons(old(group)) && unit == Htons(old(unit))
    {
      header := RESPONSE_HEADER;
      status := Htons(Bits16(msgStatus));
      reserved := 0;
      length := size;
      group := Htons(group);
      unit := Htons(unit);
      footer := RESPONSE_FOOTER;
    }

    method FrameTxBuffer(buffer: array<byte>) returns (n: nat)
      requires buffer != data
      requires length <= data.Length && length + RESPONSE_OVERHEAD <= buffer.Length
      modifies buffer, `length
      ensures length == Htonl(old(length))
      ensures n == old(length) + RESPONSE_OVERHEAD
      ensures buffer[..n] == header + Memory16(status) + Memory16(reserved) + Wire32(old(length)) + (Memory16(group)
                             + Memory16(unit)) + data[..old(length)] + footer
      ensures forall i :: n <= i < buffer.Length ==> buffer[i] == old(buffer[i])
    {
      var messageLength := length;
      length := Htonl(length);
      NetworkOrder32(messageLength, header);
      assert buffer[..0] + header == header;
      n := Append(buffer, 0, header);
      n := Append(buffer, n, Memory16(status));
      n := Append(buffer, n, Memory16(reserved));
      n := Append(buffer, n, Memory32(length));
      n := Append(buffer, n, Memory16(group) + Memory16(unit));
      n := Append(buffer, n, data[..messageLength]);
      n := Append(buffer, n, footer);
    }
  }

  /** A command put through the packet and the framer is its frame, whatever the buffer held before. */
  method FrameCommand(packet: CommandPacket, buffer: array<byte>, c: Command) returns (n: nat)
    requires buffer != packet.data
    requires packet.data.Length == MAX_TCPMSG_SIZE == buffer.Length
    requires |c.payload| + COMMAND_OVERHEAD <= buffer.Length
    modifies packet, packet.data, buffer
    ensures n <= buffer.Length && buffer[..n] == CommandFrame(c)
    ensures buffer[..4] == [0xAA, 0xAB, 0xBA, 0xBB]
    ensures buffer[4] as int * 0x100_0000 + buffer[5] as int * 0x1_0000 + buffer[6] as int * 0x100 + buffer[7]
         == |c.payload|
    ensures buffer[8] as int * 0x100 + buffer[9] == c.group && buffer[10] as int * 0x100 + buffer[11] == c.unit
    ensures buffer[12..n - 4] == c.payload && buffer[n - 4..n] == [0xCC, 0xCD, 0xDC, 0xDD]
    ensures forall i :: n <= i < buffer.Length ==> buffer[i] == old(buffer[i])
  {
    packet.Load(c);
    n := packet.FrameTxBuffer(buffer);
    NetworkOrder16(c.group, [0, 0]);
    NetworkOrder16(c.unit, [0, 0]);
    assert buffer[..n] == CommandFrame(c);
    assert CommandFrame(c) <= buffer[..];
    CommandOctets(c, buffer[..]);
  }

  /** A response whose identifiers and payload the dispatcher stored, composed and framed. */
  method FrameResponse(packet: ResponsePacket, buffer: array<byte>, r: Response) returns (n: nat)
    requires buffer != packet.data
    requires packet.data.Length == MAX_TCPMSG_SIZE == buffer.Length
    requires |r.payload| + RESPONSE_OVERHEAD <= buffer.Length
    requires packet.group == r.group && packet.unit == r.unit
    requires packet.data[..|r.payload|] == r.payload
    modifies packet, buffer
    ensures n <= buffer.Length && buffer[..n] == ResponseFrame(r)
    ensures buffer[..4] == [0xEE, 0xEF, 0xFE, 0xFF]
    ensures buffer[4] as int * 0x100 + buffer[5] == r.status % 0x1_0000 && buffer[6] == buffer[7] == 0
    ensures buffer[8] as int * 0x100_0000 + buffer[9] as int * 0x1_0000 + buffer[10] as int * 0x100 + buffer[11]
         == |r.payload|
    ensures buffer[12] as int * 0x100 + buffer[13] == r.group && buffer[14] as int * 0x100 + buffer[15] == r.unit
    ensures buffer[16..n - 4] == r.payload && buffer[n - 4..n] == [0xFF, 0xFE, 0xEF, 0xEE]
    ensures forall i :: n <= i < buffer.Length ==> buffer[i] == old(buffer[i])
  {
    packet.Compose(r.status, |r.payload|);
    n := packet.FrameTxBuffer(buffer);
    NetworkOrder16(Bits16(r.status), [0, 0]);
    NetworkOrder16(r.group, [0, 0]);
    NetworkOrder16(r.unit, [0, 0]);
    Reassociate(RESPONSE_HEADER, Wire16(Bits16(r.status)), Wire16(0), Wire32(|r.payload|), Wire16(r.group),
                Wire16(r.unit), r.payload, RESPONSE_FOOTER);
    assert ResponseFrame(r) <= buffer[..];
    ResponseOctets(r, buffer[..]);
  }

  lemma Reassociate(header: seq<byte>, status: seq<byte>, reserved: seq<byte>, length: seq<byte>, group: seq<byte>,
                    unit: seq<byte>, payload: seq<byte>, footer: seq<byte>)
    ensures header + status + reserved + length + (group + unit) + payload + footer
         == header + (status + reserved + length + group + unit + payload) + footer
  {
  }

  lemma PrefixGrows(before: seq<byte>, bytes: seq<byte>, a: nat, b: nat)
    requires a <= b <= |bytes|
    ensures before + bytes[..a] + bytes[a..b] == before + bytes[..b]
  {
    assert bytes[..b] == bytes[..a] + bytes[a..b];
  }

  /** The host's send: in chunks of the stack size once the frame exceeds it, each chunk sent whole. */
  method SendChunked(sock: Socket, buffer: array<byte>, n: nat) returns (ok: bool)
    requires 0 < n <= buffer.Length
    modifies sock`outbox, sock`asked, sock`failures
    ensures sock.failures == old(sock.failures) + if ok then 0 else 1
    ensures ok ==> sock.outbox == old(sock.outbox) + buffer[..n]
    ensures !ok ==> CutShort(sock.outbox, old(sock.outbox), buffer[..n])
    ensures |sock.asked| >= old(|sock.asked|) && Capped(sock.asked, old(|sock.asked|), MAX_TCP_STACK_SIZE)
  {
    if n > MAX_TCP_STACK_SIZE {
      ok := SendChunks(sock, buffer, n);
    } else {
      ok := sock.SendWhole(buffer[..n]);
      if !ok {
        CutShortAt(old(sock.outbox), buffer[..n], 0);
        assert old(sock.outbox) + buffer[..n][..0] == old(sock.outbox);
      }
    }
  }

  method SendChunks(sock: Socket, buffer: array<byte>, n: nat) returns (ok: bool)
    requires n <= buffer.Length
    modifies sock`outbox, sock`asked, sock`failures
    ensures sock.failures == old(sock.failures) + if ok then 0 else 1
    ensures ok ==> sock.outbox == old(sock.outbox) + buffer[..n]
    ensures !ok ==> CutShort(sock.outbox, old(sock.outbox), buffer[..n])
    ensures |sock.asked| >= old(|sock.asked|) && Capped(sock.asked, old(|sock.asked|), MAX_TCP_STACK_SIZE)
  {
    ghost var start, bytes := sock.outbox, buffer[..n];
    var count: nat := 0;
    while count < n
      invariant count <= n
      invariant sock.outbox == start + bytes[..count] && bytes == buffer[..n]
      invariant sock.failures == old(sock.failures)
      invariant |sock.asked| >= old(|sock.asked|)
      invariant Capped(sock.asked, old(|sock.asked|), MAX_TCP_STACK_SIZE)
    {
      var size := if count + MAX_TCP_STACK_SIZE <= n then MAX_TCP_STACK_SIZE else n - count;
      SliceWithin(buffer[..], n, count, count + size);
      ok := sock.SendWhole(buffer[count..count + size]);
      if !ok {
        CutShortAt(start, bytes, count);
        return;
      }
      PrefixGrows(start, bytes, count, count + size);
      count := count + size;
    }
    assert bytes[..count] == bytes;
    ok := true;
  }

  /** The target's send: whatever part of the request each call takes, the whole buffer goes out once, in order. */
  method SendPartial(sock: Socket, buffer: array<byte>, n: nat) returns (ok: bool)
    requires n <= buffer.Length
    modifies sock`outbox, sock`asked, sock`failures
    ensures sock.failures == old(sock.failures) + if ok then 0 else 1
    ensures ok ==> sock.outbox == old(sock.outbox) + buffer[..n]
    ensures !ok ==> CutShort(sock.outbox, old(sock.outbox), buffer[..n])
    ensures |sock.asked| >= old(|sock.asked|) && Capped(sock.asked, old(|sock.asked|), MAX_TCP_STACK_SIZE)
  {
    var sent: nat := 0;
    while sent < n
      invariant sent <= n
      invariant sock.outbox == old(sock.outbox) + buffer[..sent]
      invariant sock.failures == old(sock.failures)
      invariant |sock.asked| >= old(|sock.asked|)
      invariant Capped(sock.asked, old(|sock.asked|), MAX_TCP_STACK_SIZE)
    {
      var size := if n - sent > MAX_TCP_STACK_SIZE then MAX_TCP_STACK_SIZE else n - sent;
      var result := sock.Send(buffer[sent..sent + size]);
      if result == -1 {
        CutShortAt(old(sock.outbox), buffer[..n], sent);
        assert buffer[..n][..sent] == buffer[..sent];
        return false;
      }
      assert buffer[..sent + result] == buffer[..sent] + buffer[sent..sent + size][..result];
      sent := sent + result;
    }
    ok := true;
  }
}
