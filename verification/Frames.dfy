/** The two frame formats of the link, as plain byte sequences. */
module Frames {
  import opened Octets
  import opened Matcher

  // Sizes and delimiters: RFSAPR_Ethernet_Comm.h and the two ends' initialisation code.

  const MAX_TCP_STACK_SIZE: nat := 1024 * 1024
  const MAX_TCPMSG_SIZE: nat := 12 * MAX_TCP_STACK_SIZE
  const COMMAND_OVERHEAD: nat := 16
  const RESPONSE_OVERHEAD: nat := 20

  const COMMAND_HEADER: seq<byte> := [0xAA, 0xAB, 0xBA, 0xBB]
  const COMMAND_FOOTER: seq<byte> := [0xCC, 0xCD, 0xDC, 0xDD]
  const RESPONSE_HEADER: seq<byte> := [0xEE, 0xEF, 0xFE, 0xFF]
  const RESPONSE_FOOTER: seq<byte> := [0xFF, 0xFE, 0xEF, 0xEE]

  /** The longest payload the receivers can take: they write a terminator behind it. */
  const CAPACITY: nat := MAX_TCPMSG_SIZE - 1

  type Payload = s: seq<byte> | |s| <= CAPACITY

  datatype Command = Command(group: u16, unit: u16, payload: Payload)
  datatype Response = Response(status: i16, group: u16, unit: u16, payload: Payload)

  function CommandBody(c: Command): seq<byte> {
    Wire32(|c.payload|) + Wire16(c.group) + Wire16(c.unit) + c.payload
  }

  function CommandFrame(c: Command): (s: seq<byte>)
    ensures |s| == |c.payload| + COMMAND_OVERHEAD
  {
    COMMAND_HEADER + CommandBody(c) + COMMAND_FOOTER
  }

  function ResponseBody(r: Response): seq<byte> {
    Wire16(Bits16(r.status)) + Wire16(0) + Wire32(|r.payload|) + Wire16(r.group) + Wire16(r.unit) + r.payload
  }

  function ResponseFrame(r: Response): (s: seq<byte>)
    ensures |s| == |r.payload| + RESPONSE_OVERHEAD
  {
    RESPONSE_HEADER + ResponseBody(r) + RESPONSE_FOOTER
  }

  // The formats by position, at the front of a buffer.

  lemma CommandOctets(c: Command, s: seq<byte>)
    requires CommandFrame(c) <= s
    ensures var n := |c.payload|;
            && s[..4] == [0xAA, 0xAB, 0xBA, 0xBB]
            && s[4] as int * 0x100_0000 + s[5] as int * 0x1_0000 + s[6] as int * 0x100 + s[7] == n
            && s[8] as int * 0x100 + s[9] == c.group && s[10] as int * 0x100 + s[11] == c.unit
            && s[12..12 + n] == c.payload && s[12 + n..16 + n] == [0xCC, 0xCD, 0xDC, 0xDD]
  {
    var ids := CommandIds(|c.payload|, c.group, c.unit);
    Envelope(COMMAND_HEADER, ids, c.payload, COMMAND_FOOTER, s);
    assert s[4] == ids[0] && s[5] == ids[1] && s[6] == ids[2] && s[7] == ids[3];
    assert s[8] == ids[4] && s[9] == ids[5] && s[10] == ids[6] && s[11] == ids[7];
  }

  lemma CommandIds(n: u32, group: u16, unit: u16) returns (ids: seq<byte>)
    ensures ids == Wire32(n) + Wire16(group) + Wire16(unit) && |ids| == 8
    ensures ids[0] as int * 0x100_0000 + ids[1] as int * 0x1_0000 + ids[2] as int * 0x100 + ids[3] == n
    ensures ids[4] as int * 0x100 + ids[5] == group && ids[6] as int * 0x100 + ids[7] == unit
  {
    var w, g, u := Wire32(n), Wire16(group), Wire16(unit);
    ids := w + g + u;
    NetworkOrder32(n, w);
    NetworkOrder16(group, g);
    NetworkOrder16(unit, u);
    assert ids[0] == w[0] && ids[1] == w[1] && ids[2] == w[2] && ids[3] == w[3];
    assert ids[4] == g[0] && ids[5] == g[1] && ids[6] == u[0] && ids[7] == u[1];
  }

  lemma ResponseOctets(r: Response, s: seq<byte>)
    requires ResponseFrame(r) <= s
    ensures var n := |r.payload|;
            && s[..4] == [0xEE, 0xEF, 0xFE, 0xFF]
            && s[4] as int * 0x100 + s[5] == r.status % 0x1_0000 && s[6] == s[7] == 0
            && s[8] as int * 0x100_0000 + s[9] as int * 0x1_0000 + s[10] as int * 0x100 + s[11] == n
            && s[12] as int * 0x100 + s[13] == r.group && s[14] as int * 0x100 + s[15] == r.unit
            && s[16..16 + n] == r.payload && s[16 + n..20 + n] == [0xFF, 0xFE, 0xEF, 0xEE]
  {
    var ids := ResponseIds(r.status, |r.payload|, r.group, r.unit);
    Envelope(RESPONSE_HEADER, ids, r.payload, RESPONSE_FOOTER, s);
    assert s[4] == ids[0] && s[5] == ids[1] && s[6] == ids[2] && s[7] == ids[3];
    assert s[8] == ids[4] && s[9] == ids[5] && s[10] == ids[6] && s[11] == ids[7];
    assert s[12] == ids[8] && s[13] == ids[9] && s[14] == ids[10] && s[15] == ids[11];
  }

  lemma ResponseIds(status: i16, n: u32, group: u16, unit: u16) returns (ids: seq<byte>)
    ensures ids == Wire16(Bits16(status)) + Wire16(0) + Wire32(n) + Wire16(group) + Wire16(unit) && |ids| == 12
    ensures ids[0] as int * 0x100 + ids[1] == status % 0x1_0000 && ids[2] == ids[3] == 0
    ensures ids[4] as int * 0x100_0000 + ids[5] as int * 0x1_0000 + ids[6] as int * 0x100 + ids[7] == n
    ensures ids[8] as int * 0x100 + ids[9] == group && ids[10] as int * 0x100 + ids[11] == unit
  {
    var bits, none := Wire16(Bits16(status)), Wire16(0);
    var rest := CommandIds(n, group, unit);
    ids := bits + none + Wire32(n) + Wire16(group) + Wire16(unit);
    SignRoundTrip(status);
    NetworkOrder16(Bits16(status), bits);
    NetworkOrder16(0, none);
    assert ids[..2] == bits && ids[2..4] == none && ids[4..] == rest;
    assert ids[0] == ids[..2][0] && ids[1] == ids[..2][1] && ids[2] == ids[2..4][0] && ids[3] == ids[2..4][1];
    assert forall k :: 0 <= k < 8 ==> ids[4 + k] == ids[4..][k];
    assert ids[4] == rest[0] && ids[5] == rest[1] && ids[6] == rest[2] && ids[7] == rest[3];
    assert ids[8] == rest[4] && ids[9] == rest[5] && ids[10] == rest[6] && ids[11] == rest[7];
  }

  lemma Envelope(header: seq<byte>, ids: seq<byte>, payload: seq<byte>, footer: seq<byte>, s: seq<byte>)
    requires |header| == |footer| == 4 && header + (ids + payload) + footer <= s
    ensures var a, b := 4 + |ids|, 4 + |ids| + |payload|;
            && s[..4] == header && s[a..b] == payload && s[b..b + 4] == footer
            && forall k :: 0 <= k < |ids| ==> s[4 + k] == ids[k]
  {
    var f, a, b := header + (ids + payload) + footer, 4 + |ids|, 4 + |ids| + |payload|;
    assert s[..b + 4] == f;
    SliceWithin(s, b + 4, 0, 4);
    SliceWithin(s, b + 4, a, b);
    SliceWithin(s, b + 4, b, b + 4);
    assert f[..4] == header && f[a..b] == payload && f[b..] == footer;
    forall k | 0 <= k < |ids|
      ensures s[4 + k] == ids[k]
    {
      assert s[..b + 4][4 + k] == f[4 + k];
    }
  }

  function CommandFrames(cs: seq<Command>): seq<byte> {
    if cs == [] then [] else CommandFrame(cs[0]) + CommandFrames(cs[1..])
  }

  function ResponseFrames(rs: seq<Response>): seq<byte> {
    if rs == [] then [] else ResponseFrame(rs[0]) + ResponseFrames(rs[1..])
  }

  lemma DelimitersAreDistinct()
    ensures Distinct(COMMAND_HEADER) && Distinct(COMMAND_FOOTER)
    ensures Distinct(RESPONSE_HEADER) && Distinct(RESPONSE_FOOTER)
  {
  }

  lemma {:induction false} ResponseFramesAppend(a: seq<Response>, b: seq<Response>)
    ensures ResponseFrames(a + b) == ResponseFrames(a) + ResponseFrames(b)
  {
    if a == [] {
      assert a + b == b;
    } else {
      assert (a + b)[1..] == a[1..] + b;
      ResponseFramesAppend(a[1..], b);
    }
  }
}
