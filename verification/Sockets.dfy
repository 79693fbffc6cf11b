/** One end of a connected TCP stream, and `memcpy`. How many bytes each call moves is chosen arbitrarily within what
    the socket interface allows; everything proved about callers holds for every choice. */
module Sockets {
  import opened Octets

  class Socket {
    /** The bytes the peer sends, from the first unread one on. */
    var inbox: seq<byte>
    /** The bytes put on the wire. */
    var outbox: seq<byte>
    /** The sizes asked of `send` so far. */
    var asked: seq<nat>
    /** How many writes have failed. */
    ghost var failures: nat
    /** How many reads under a timeout came back short. */
    ghost var timeOuts: nat

    /** A blocking read on a live connection: at least one byte, at most `max`. */
    method Recv(max: nat) returns (chunk: seq<byte>)
      requires max > 0 && inbox != []
      modifies `inbox
      ensures 0 < |chunk| <= max && old(inbox) == chunk + inbox
    {
      var n: nat :| 0 < n <= max && n <= |inbox|;
      chunk, inbox := inbox[..n], inbox[n..];
    }

    /** A small fixed-size read, assumed complete. */
    method RecvExactly(n: nat) returns (chunk: seq<byte>)
      requires n <= |inbox|
      modifies `inbox
      ensures |chunk| == n && old(inbox) == chunk + inbox
    {
      chunk, inbox := inbox[..n], inbox[n..];
    }

    /** A read under a timeout: any number of bytes up to `max`. Coming back with fewer than `least` is a timeout. */
    method RecvOrTimeOut(least: nat, max: nat) returns (chunk: seq<byte>)
      requires 0 < least <= max
      modifies `inbox, `timeOuts
      ensures |chunk| <= max && old(inbox) == chunk + inbox
      ensures timeOuts == old(timeOuts) + if |chunk| < least then 1 else 0
    {
      var n: nat :| n <= max && n <= |inbox|;
      chunk, inbox := inbox[..n], inbox[n..];
      if n < least {
        timeOuts := timeOuts + 1;
      }
    }

    /** A write that may be partial, or fail (-1) and write nothing. */
    method Send(bytes: seq<byte>) returns (result: int)
      requires bytes != []
      modifies `outbox, `asked, `failures
      ensures asked == old(asked) + [|bytes|]
      ensures result == -1 ==> outbox == old(outbox)
      ensures result != -1 ==> 0 < result <= |bytes| && outbox == old(outbox) + bytes[..result]
      ensures failures == old(failures) + if result == -1 then 1 else 0
    {
      asked := asked + [|bytes|];
      result :| -1 <= result <= |bytes| && result != 0;
      if result > 0 {
        outbox := outbox + bytes[..result];
      } else {
        failures := failures + 1;
      }
    }

    /** A write on the host's blocking socket: all of it, or a failure. */
    method SendWhole(bytes: seq<byte>) returns (ok: bool)
      modifies `outbox, `asked, `failures
      ensures asked == old(asked) + [|bytes|]
      ensures outbox == if ok then old(outbox) + bytes else old(outbox)
      ensures failures == old(failures) + if ok then 0 else 1
    {
      asked := asked + [|bytes|];
      ok :| true;
      if ok {
        outbox := outbox + bytes;
      } else {
        failures := failures + 1;
      }
    }
  }

  /** `memcpy(&dst[at], src, |src|)`, returning the next free index. */
  method Append(dst: array<byte>, at: nat, src: seq<byte>) returns (next: nat)
    requires at + |src| <= dst.Length
    modifies dst
    ensures next == at + |src|
    ensures dst[..next] == old(dst[..at]) + src
    ensures forall i :: next <= i < dst.Length ==> dst[i] == old(dst[i])
  {
    next := at + |src|;
    forall i | 0 <= i < |src| {
      dst[at + i] := src[i];
    }
    assert dst[..next] == dst[..at] + dst[at..next];
    assert dst[at..next] == src;
  }

  /** A send that failed part of the way: what went out is a proper prefix of what was to go out. */
  ghost predicate CutShort(now: seq<byte>, before: seq<byte>, bytes: seq<byte>) {
    before <= now && now < before + bytes
  }

  lemma CutShortAt(before: seq<byte>, bytes: seq<byte>, k: nat)
    requires k < |bytes|
    ensures CutShort(before + bytes[..k], before, bytes)
  {
    assert (before + bytes)[..|before| + k] == before + bytes[..k];
  }

  lemma CutShortBehind(now: seq<byte>, before: seq<byte>, a: seq<byte>, b: seq<byte>, c: seq<byte>)
    requires CutShort(now, before + a, b)
    ensures CutShort(now, before, a + b + c)
  {
    assert before + (a + b + c) == before + a + b + c;
  }

  /** Every call of `send` recorded after the first `from` asked for between one and `cap` bytes. */
  predicate Capped(asked: seq<nat>, from: nat, cap: nat) {
    forall i :: from <= i < |asked| ==> 0 < asked[i] <= cap
  }
}
