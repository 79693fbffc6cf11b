/** Octets, fixed-width integers, and the two byte orders the link has to reconcile:
    host memory (little-endian) and the wire (big-endian). */
module Octets {

  type byte = b: int | 0 <= b < 0x100
  type u16 = n: int | 0 <= n < 0x1_0000
  type u32 = n: int | 0 <= n < 0x1_0000_0000
  type i16 = n: int | -0x8000 <= n < 0x8000

  datatype Option<+T> = None | Some(value: T)

  lemma SliceBehind<T>(s: seq<T>, k: nat, i: nat, j: nat)
    requires i <= j && k + j <= |s|
    ensures s[k..][i..j] == s[k + i..k + j]
  {
  }

  lemma SliceWithin<T>(s: seq<T>, n: nat, i: nat, j: nat)
    requires i <= j <= n <= |s|
    ensures s[..n][i..j] == s[i..j]
  {
  }

  lemma PrefixBehind<T>(s: seq<T>, i: nat, j: nat, p: seq<T>)
    requires i <= j <= |s| && p <= s[j..]
    ensures j + |p| <= |s| && s[i..j + |p|] == s[i..j] + p
  {
  }

  lemma NothingAdded<T>(s: seq<T>)
    ensures [] + s == s && s + [] == s
  {
  }

  lemma HeadFirst<T>(a: seq<T>, b: seq<T>)
    requires a != []
    ensures a + b == [a[0]] + (a[1..] + b)
  {
  }

  lemma SplitBehind<T>(s: seq<T>, i: nat, j: nat)
    requires i <= j <= |s|
    ensures s[i..j] + s[j..] == s[i..]
  {
  }

  /** Two's complement: a C `short` seen as its sixteen bits, and back. */
  function Bits16(s: i16): u16 {
    if s < 0 then s + 0x1_0000 else s
  }

  function Signed16(n: u16): i16 {
    if n < 0x8000 then n else n - 0x1_0000
  }

  // The wire order.

  function Wire16(n: u16): (s: seq<byte>)
    ensures |s| == 2
  {
    [n / 0x100, n % 0x100]
  }

  function Wire32(n: u32): (s: seq<byte>)
    ensures |s| == 4
  {
    Wire16(n / 0x1_0000) + Wire16(n % 0x1_0000)
  }

  function FromWire16(s: seq<byte>): (n: u16)
    requires |s| == 2
    ensures Wire16(n) == s
  {
    s[0] as int * 0x100 + s[1]
  }

  function FromWire32(s: seq<byte>): (n: u32)
    requires |s| == 4
    ensures Wire32(n) == s
  {
    var n := FromWire16(s[..2]) * 0x1_0000 + FromWire16(s[2..]);
    assert n % 0x1_0000 == FromWire16(s[2..]) && n / 0x1_0000 == FromWire16(s[..2]);
    assert s == s[..2] + s[2..];
    n
  }

  // Host memory: what `memcpy` sees of an integer variable on the little-endian machines the code runs on.

  function Memory16(n: u16): (s: seq<byte>)
    ensures |s| == 2
  {
    [n % 0x100, n / 0x100]
  }

  function Memory32(n: u32): (s: seq<byte>)
    ensures |s| == 4
  {
    Memory16(n % 0x1_0000) + Memory16(n / 0x1_0000)
  }

  function Load16(s: seq<byte>): (n: u16)
    requires |s| == 2
    ensures Memory16(n) == s
  {
    s[1] as int * 0x100 + s[0]
  }

  function Load32(s: seq<byte>): (n: u32)
    requires |s| == 4
    ensures Memory32(n) == s
  {
    var n := Load16(s[2..]) * 0x1_0000 + Load16(s[..2]);
    assert n % 0x1_0000 == Load16(s[..2]) && n / 0x1_0000 == Load16(s[2..]);
    assert s == s[..2] + s[2..];
    n
  }

  /** `htons`, which is also `ntohs`. */
  function Htons(n: u16): u16 {
    n % 0x100 * 0x100 + n / 0x100
  }

  /** `htonl`, which is also `ntohl`. */
  function Htonl(n: u32): u32 {
    Htons(n % 0x1_0000) * 0x1_0000 + Htons(n / 0x1_0000)
  }

  /** The wire order has the high octet first, memory the low one. Swapping and then copying from memory writes the
      wire order; copying into memory and then swapping reads it. */
  lemma NetworkOrder16(n: u16, s: seq<byte>)
    requires |s| == 2
    ensures Wire16(n)[0] as int * 0x100 + Wire16(n)[1] == n
    ensures Memory16(n)[1] as int * 0x100 + Memory16(n)[0] == n
    ensures Memory16(Htons(n)) == Wire16(n)
    ensures Htons(Load16(s)) == FromWire16(s)
    ensures Htons(Htons(n)) == n
    ensures FromWire16(Wire16(n)) == n
  {
    assert Htons(n) / 0x100 == n % 0x100 && Htons(n) % 0x100 == n / 0x100;
  }

  lemma NetworkOrder32(n: u32, s: seq<byte>)
    requires |s| == 4
    ensures var w := Wire32(n);
            w[0] as int * 0x100_0000 + w[1] as int * 0x1_0000 + w[2] as int * 0x100 + w[3] == n
    ensures var m := Memory32(n);
            m[3] as int * 0x100_0000 + m[2] as int * 0x1_0000 + m[1] as int * 0x100 + m[0] == n
    ensures Memory32(Htonl(n)) == Wire32(n)
    ensures Htonl(Load32(s)) == FromWire32(s)
    ensures FromWire32(Wire32(n)) == n
  {
    var lo, hi := n % 0x1_0000, n / 0x1_0000;
    NetworkOrder16(lo, s[..2]);
    NetworkOrder16(hi, s[2..]);
    assert Htonl(n) / 0x1_0000 == Htons(lo) && Htonl(n) % 0x1_0000 == Htons(hi);
    var m := Load32(s);
    assert m % 0x1_0000 == Load16(s[..2]) && m / 0x1_0000 == Load16(s[2..]);
    assert Wire32(n)[..2] == Wire16(hi) && Wire32(n)[2..] == Wire16(lo);
  }

  /** The bits are the two's complement, that is, the remainder. */
  lemma SignRoundTrip(s: i16)
    ensures Signed16(Bits16(s)) == s
    ensures Bits16(s) == s % 0x1_0000
  {
  }
}
