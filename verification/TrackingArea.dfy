/** The partial tracking area identity list, in its three list types, and the TLV that wraps it. */
module TrackingArea {
  import opened Octets
  import opened Nas

  type Octets16 = s: seq<byte> | |s| == 16 witness seq(16, _ => 0)

  datatype Tac = Tac(t0: byte, t1: byte, t2: byte)
  type Tacs16 = s: seq<Tac> | |s| == 16 witness seq(16, _ => Tac(0, 0, 0))

  /** The fixed-size struct that the element copies by value. */
  datatype Ptai = Ptai(kind: byte, count: byte, mcc12: Octets16, mcc3mnc3: Octets16, mnc12: Octets16, tacs: Tacs16)

  /** Types 0 and 2 index the sixteen entries by the element count. */
  predicate Encodable(p: Ptai) {
    p.kind in {0, 2} ==> p.count <= 16
  }

  /** The values the one-octet packing of type and count can carry. */
  predicate Canonical(p: Ptai) {
    Encodable(p) && p.kind <= 3 && p.count < 32
  }

  function Plmn(p: Ptai, i: nat): seq<byte>
    requires i < 16
  {
    [p.mcc12[i], p.mcc3mnc3[i], p.mnc12[i]]
  }

  function TacBytes(p: Ptai, i: nat): seq<byte>
    requires i < 16
  {
    [p.tacs[i].t0, p.tacs[i].t1, p.tacs[i].t2]
  }

  /** The first `n` tracking area codes, three octets each. */
  function TacList(p: Ptai, n: nat): (s: seq<byte>)
    requires n <= 16
    ensures |s| == 3 * n
  {
    if n == 0 then [] else TacList(p, n - 1) + TacBytes(p, n - 1)
  }

  /** The first `n` full entries, six octets each. */
  function EntryList(p: Ptai, n: nat): (s: seq<byte>)
    requires n <= 16
    ensures |s| == 6 * n
  {
    if n == 0 then [] else EntryList(p, n - 1) + Plmn(p, n - 1) + TacBytes(p, n - 1)
  }

  function ListOctet(p: Ptai): byte {
    p.kind % 4 * 32 + p.count % 32
  }

  function Content(p: Ptai): seq<byte>
    requires Encodable(p)
  {
    match p.kind
    case 0 => Plmn(p, 0) + TacList(p, p.count)
    case 1 => Plmn(p, 0) + TacBytes(p, 0)
    case 2 => EntryList(p, p.count)
    case _ => []
  }

  function PtaiBytes(p: Ptai): seq<byte>
    requires Encodable(p)
  {
    [ListOctet(p)] + Content(p)
  }

  /** The octets after the first that a list octet announces. */
  function Announced(octet: byte): nat {
    match octet / 32 % 4
    case 0 => 3 + 3 * (octet % 32)
    case 1 => 6
    case 2 => 6 * (octet % 32)
    case _ => 0
  }

  /** What the decoder reads is there, and the entries it fills exist. */
  predicate Readable(data: seq<byte>) {
    data != [] ==>
      && |data| >= 1 + Announced(data[0])
      && (OctetKind(data[0]) in {0, 2} ==> data[0] % 32 <= 16)
  }

  function OctetKind(octet: byte): byte {
    octet / 32 % 4
  }

  /** The entries that count: two lists carry the same identities. */
  predicate SameShown(a: Ptai, b: Ptai)
    requires Canonical(a)
  {
    && a.kind == b.kind && a.count == b.count
    && (a.kind in {0, 1} ==> Plmn(a, 0) == Plmn(b, 0))
    && (a.kind == 0 ==> a.tacs[..a.count] == b.tacs[..a.count])
    && (a.kind == 1 ==> a.tacs[0] == b.tacs[0])
    && (a.kind == 2 ==>
          && a.mcc12[..a.count] == b.mcc12[..a.count] && a.mcc3mnc3[..a.count] == b.mcc3mnc3[..a.count]
          && a.mnc12[..a.count] == b.mnc12[..a.count] && a.tacs[..a.count] == b.tacs[..a.count])
  }

  predicate PlmnsKept(was: Ptai, now: Ptai, from: nat) {
    forall j :: from <= j < 16 ==>
      was.mcc12[j] == now.mcc12[j] && was.mcc3mnc3[j] == now.mcc3mnc3[j] && was.mnc12[j] == now.mnc12[j]
  }

  predicate TacsKept(was: Ptai, now: Ptai, from: nat) {
    forall j :: from <= j < 16 ==> was.tacs[j] == now.tacs[j]
  }

  /** The entries a decoder given `octet` leaves alone. */
  predicate RestKept(was: Ptai, now: Ptai, octet: byte) {
    match OctetKind(octet)
    case 0 => PlmnsKept(was, now, 1) && TacsKept(was, now, octet % 32)
    case 1 => PlmnsKept(was, now, 1) && TacsKept(was, now, 1)
    case 2 => PlmnsKept(was, now, octet % 32) && TacsKept(was, now, octet % 32)
    case _ => PlmnsKept(was, now, 0) && TacsKept(was, now, 0)
  }

  // The encoding determines the list, even inside a longer buffer.

  lemma {:induction false} TacListUnique(a: Ptai, b: Ptai, n: nat)
    requires n <= 16 && TacList(a, n) == TacList(b, n)
    ensures a.tacs[..n] == b.tacs[..n]
  {
    if n > 0 {
      var s, t := TacList(a, n), TacList(b, n);
      assert TacList(a, n - 1) == s[..3 * (n - 1)] == t[..3 * (n - 1)] == TacList(b, n - 1);
      assert TacBytes(a, n - 1) == s[3 * (n - 1)..] == t[3 * (n - 1)..] == TacBytes(b, n - 1);
      TacListUnique(a, b, n - 1);
      assert a.tacs[n - 1] == b.tacs[n - 1] by {
        assert TacBytes(a, n - 1)[0] == a.tacs[n - 1].t0 && TacBytes(b, n - 1)[0] == b.tacs[n - 1].t0;
        assert TacBytes(a, n - 1)[1] == a.tacs[n - 1].t1 && TacBytes(b, n - 1)[1] == b.tacs[n - 1].t1;
        assert TacBytes(a, n - 1)[2] == a.tacs[n - 1].t2 && TacBytes(b, n - 1)[2] == b.tacs[n - 1].t2;
      }
    }
  }

  lemma EntryUnique(a: Ptai, b: Ptai, i: nat)
    requires i < 16 && Plmn(a, i) + TacBytes(a, i) == Plmn(b, i) + TacBytes(b, i)
    ensures a.mcc12[i] == b.mcc12[i] && a.mcc3mnc3[i] == b.mcc3mnc3[i] && a.mnc12[i] == b.mnc12[i]
    ensures a.tacs[i] == b.tacs[i]
    ensures Plmn(a, i) == Plmn(b, i)
  {
    var s, t := Plmn(a, i) + TacBytes(a, i), Plmn(b, i) + TacBytes(b, i);
    assert s[0] == t[0] && s[1] == t[1] && s[2] == t[2];
    assert s[3] == t[3] && s[4] == t[4] && s[5] == t[5];
  }

  lemma {:induction false} EntryListUnique(a: Ptai, b: Ptai, n: nat)
    requires n <= 16 && EntryList(a, n) == EntryList(b, n)
    ensures a.mcc12[..n] == b.mcc12[..n] && a.mcc3mnc3[..n] == b.mcc3mnc3[..n] && a.mnc12[..n] == b.mnc12[..n]
    ensures a.tacs[..n] == b.tacs[..n]
  {
    if n > 0 {
      var s, t := EntryList(a, n), EntryList(b, n);
      assert EntryList(a, n - 1) == s[..6 * (n - 1)] == t[..6 * (n - 1)] == EntryList(b, n - 1);
      assert Plmn(a, n - 1) + TacBytes(a, n - 1) == s[6 * (n - 1)..] == t[6 * (n - 1)..]
          == Plmn(b, n - 1) + TacBytes(b, n - 1);
      EntryUnique(a, b, n - 1);
      EntryListUnique(a, b, n - 1);
    }
  }

  /** The one-octet packing carries the type and the count exactly when the list is canonical, and then it announces
      exactly what follows it. */
  lemma ListOctetUnique(a: Ptai)
    requires Encodable(a)
    ensures OctetKind(ListOctet(a)) == a.kind && ListOctet(a) % 32 == a.count <==> Canonical(a)
    ensures Canonical(a) ==> Announced(ListOctet(a)) == |Content(a)|
  {
    assert ListOctet(a) / 32 == a.kind % 4 && ListOctet(a) % 32 == a.count % 32;
  }

  /** Unique decoding: two canonical lists whose encodings begin the same buffer carry the same identities, and the
      encodings are the same. */
  lemma PtaiUnique(a: Ptai, b: Ptai, x: seq<byte>, y: seq<byte>)
    requires Canonical(a) && Canonical(b)
    requires PtaiBytes(a) + x == PtaiBytes(b) + y
    ensures SameShown(a, b) && PtaiBytes(a) == PtaiBytes(b) && x == y
  {
    var s, t := PtaiBytes(a) + x, PtaiBytes(b) + y;
    assert ListOctet(a) == s[0] == t[0] == ListOctet(b);
    ListOctetUnique(a);
    ListOctetUnique(b);
    var n := 1 + |Content(a)|;
    assert PtaiBytes(a) == s[..n] == t[..n] == PtaiBytes(b);
    assert x == s[n..] == t[n..] == y;
    ContentUnique(a, b);
  }

  lemma ContentUnique(a: Ptai, b: Ptai)
    requires Canonical(a) && Canonical(b) && a.kind == b.kind && a.count == b.count
    requires PtaiBytes(a) == PtaiBytes(b)
    ensures SameShown(a, b)
  {
    var c, d := Content(a), Content(b);
    assert c == PtaiBytes(a)[1..] == PtaiBytes(b)[1..] == d;
    match a.kind
    case 0 =>
      assert Plmn(a, 0) == c[..3] == d[..3] == Plmn(b, 0);
      assert TacList(a, a.count) == c[3..] == d[3..] == TacList(b, a.count);
      TacListUnique(a, b, a.count);
    case 1 => EntryUnique(a, b, 0);
    case 2 => EntryListUnique(a, b, a.count);
    case _ =>
  }

  lemma SamePrefix<T>(s: seq<T>, t: seq<T>, n: nat)
    requires 0 < n <= |s| && n <= |t| && s[..n] == t[..n]
    ensures s[n - 1] == t[n - 1] && s[..n - 1] == t[..n - 1]
  {
    assert s[n - 1] == s[..n][n - 1] && t[n - 1] == t[..n][n - 1];
    assert s[..n - 1] == s[..n][..n - 1] && t[..n - 1] == t[..n][..n - 1];
  }

  /** The lists look only at the entries they encode. */
  lemma {:induction false} TacListLocal(a: Ptai, b: Ptai, n: nat)
    requires n <= 16 && a.tacs[..n] == b.tacs[..n]
    ensures TacList(a, n) == TacList(b, n)
  {
    if n > 0 {
      SamePrefix(a.tacs, b.tacs, n);
      TacListLocal(a, b, n - 1);
    }
  }

  lemma {:induction false} EntryListLocal(a: Ptai, b: Ptai, n: nat)
    requires n <= 16 && a.tacs[..n] == b.tacs[..n]
    requires a.mcc12[..n] == b.mcc12[..n] && a.mcc3mnc3[..n] == b.mcc3mnc3[..n] && a.mnc12[..n] == b.mnc12[..n]
    ensures EntryList(a, n) == EntryList(b, n)
  {
    if n > 0 {
      SamePrefix(a.tacs, b.tacs, n);
      SamePrefix(a.mcc12, b.mcc12, n);
      SamePrefix(a.mcc3mnc3, b.mcc3mnc3, n);
      SamePrefix(a.mnc12, b.mnc12, n);
      EntryListLocal(a, b, n - 1);
    }
  }

  lemma UnpackedOctet(p: Ptai, octet: byte)
    requires p.kind == OctetKind(octet) && p.count == octet % 32
    ensures p.kind * 32 + p.count == octet % 128 == ListOctet(p)
  {
  }

  class PartialTrackingArea {
    var value: Ptai

    constructor (value: Ptai)
      ensures this.value == value
    {
      this.value := value;
    }

    method CodeTac(data: ByteVector, i: nat)
      requires i < 16
      modifies data
      ensures data.bytes == old(data.bytes) + TacBytes(value, i)
    {
      data.PushBack(value.tacs[i].t0);
      data.PushBack(value.tacs[i].t1);
      data.PushBack(value.tacs[i].t2);
    }

    method CodePlmn(data: ByteVector, i: nat)
      requires i < 16
      modifies data
      ensures data.bytes == old(data.bytes) + Plmn(value, i)
    {
      data.PushBack(value.mcc12[i]);
      data.PushBack(value.mcc3mnc3[i]);
      data.PushBack(value.mnc12[i]);
    }

    method CodeTacs(data: ByteVector) returns (size: int)
      requires value.count <= 16
      modifies data
      ensures data.bytes == old(data.bytes) + TacList(value, value.count)
      ensures size == 3 * value.count
    {
      size := 0;
      for i := 0 to value.count
        invariant data.bytes == old(data.bytes) + TacList(value, i)
        invariant size == 3 * i
      {
        CodeTac(data, i);
        size := size + 3;
      }
    }

    method CodeEntries(data: ByteVector) returns (size: int)
      requires value.count <= 16
      modifies data
      ensures data.bytes == old(data.bytes) + EntryList(value, value.count)
      ensures size == 6 * value.count
    {
      size := 0;
      for i := 0 to value.count
        invariant data.bytes == old(data.bytes) + EntryList(value, i)
        invariant size == 6 * i
      {
        CodePlmn(data, i);
        CodeTac(data, i);
        size := size + 6;
      }
    }

    /** Appends exactly the list's encoding and returns how long it is. */
    method CodeV(data: ByteVector) returns (size: int)
      requires Encodable(value)
      modifies data
      ensures data.bytes == old(data.bytes) + PtaiBytes(value)
      ensures size == |PtaiBytes(value)|
      ensures data.bytes[|old(data.bytes)|] == value.kind % 4 * 32 + value.count % 32
      ensures var s := data.bytes[|old(data.bytes)|..];
              if value.kind == 0 then
                && |s| == 4 + 3 * value.count && s[1] == value.mcc12[0] && s[2] == value.mcc3mnc3[0]
                && s[3] == value.mnc12[0]
                && forall i :: 0 <= i < value.count ==>
                     && s[4 + 3 * i] == value.tacs[i].t0 && s[5 + 3 * i] == value.tacs[i].t1
                     && s[6 + 3 * i] == value.tacs[i].t2
              else if value.kind == 1 then
                && |s| == 7 && s[1] == value.mcc12[0] && s[2] == value.mcc3mnc3[0] && s[3] == value.mnc12[0]
                && s[4] == value.tacs[0].t0 && s[5] == value.tacs[0].t1 && s[6] == value.tacs[0].t2
              else if value.kind == 2 then
                && |s| == 1 + 6 * value.count
                && forall i :: 0 <= i < value.count ==>
                     && s[1 + 6 * i] == value.mcc12[i] && s[2 + 6 * i] == value.mcc3mnc3[i]
                     && s[3 + 6 * i] == value.mnc12[i]
                     && s[4 + 6 * i] == value.tacs[i].t0 && s[5 + 6 * i] == value.tacs[i].t1
                     && s[6 + 6 * i] == value.tacs[i].t2
              else |s| == 1
    {
      data.PushBack(ListOctet(value));
      var rest := CodeContent(data);
      Associate(old(data.bytes), [ListOctet(value)], Content(value));
      size := 1 + rest;
      PtaiOctets(value);
      assert data.bytes[|old(data.bytes)|..] == PtaiBytes(value);
    }

    method CodeContent(data: ByteVector) returns (size: int)
      requires Encodable(value)
      modifies data
      ensures data.bytes == old(data.bytes) + Content(value)
      ensures size == |Content(value)|
    {
      size := 0;
      ghost var start := data.bytes;
      if value.kind == 0 {
        CodePlmn(data, 0);
        size := CodeTacs(data);
        size := size + 3;
        Associate(start, Plmn(value, 0), TacList(value, value.count));
      } else if value.kind == 1 {
        CodePlmn(data, 0);
        CodeTac(data, 0);
        size := 6;
        Associate(start, Plmn(value, 0), TacBytes(value, 0));
      } else if value.kind == 2 {
        size := CodeEntries(data);
      }
    }

    method DecodePlmn(data: seq<byte>, at: nat, i: nat, out: ByteVector)
      requires at + 3 <= |data| && i < 16
      modifies this, out
      ensures value == old(value).(mcc12 := old(value).mcc12[i := data[at]],
                                   mcc3mnc3 := old(value).mcc3mnc3[i := data[at + 1]],
                                   mnc12 := old(value).mnc12[i := data[at + 2]])
      ensures out.bytes == old(out.bytes) + data[at..at + 3]
      ensures Plmn(value, i) == data[at..at + 3]
    {
      value := value.(mcc12 := value.mcc12[i := data[at]]);
      out.PushBack(value.mcc12[i]);
      value := value.(mcc3mnc3 := value.mcc3mnc3[i := data[at + 1]]);
      out.PushBack(value.mcc3mnc3[i]);
      value := value.(mnc12 := value.mnc12[i := data[at + 2]]);
      out.PushBack(value.mnc12[i]);
    }

    method DecodeTac(data: seq<byte>, at: nat, i: nat, out: ByteVector)
      requires at + 3 <= |data| && i < 16
      modifies this, out
      ensures value == old(value).(tacs := old(value).tacs[i := Tac(data[at], data[at + 1], data[at + 2])])
      ensures out.bytes == old(out.bytes) + data[at..at + 3]
      ensures TacBytes(value, i) == data[at..at + 3]
    {
      value := value.(tacs := value.tacs[i := Tac(data[at], data[at + 1], data[at + 2])]);
      out.PushBack(value.tacs[i].t0);
      out.PushBack(value.tacs[i].t1);
      out.PushBack(value.tacs[i].t2);
    }

    /** The loop of list type 0. */
    method DecodeTacs(data: seq<byte>, n: nat, out: ByteVector)
      requires n <= 16 && |data| >= 4 + 3 * n
      modifies this, out
      ensures value == old(value).(tacs := value.tacs) && TacsKept(old(value), value, n)
      ensures TacList(value, n) == data[4..4 + 3 * n]
      ensures out.bytes == old(out.bytes) + data[4..4 + 3 * n]
    {
      var size := 4;
      assert data[4..4] == [];
      for i := 0 to n
        invariant size == 4 + 3 * i
        invariant value == old(value).(tacs := value.tacs) && TacsKept(old(value), value, i)
        invariant TacList(value, i) == data[4..size]
        invariant out.bytes == old(out.bytes) + data[4..size]
      {
        ghost var before := value;
        DecodeTac(data, size, i, out);
        TacListLocal(before, value, i);
        Chained(old(out.bytes), data, 4, size, size + 3, size + 3);
        size := size + 3;
      }
    }

    /** The loop of list type 2. */
    method DecodeEntries(data: seq<byte>, n: nat, out: ByteVector)
      requires n <= 16 && |data| >= 1 + 6 * n
      modifies this, out
      ensures value.kind == old(value).kind && value.count == old(value).count
      ensures PlmnsKept(old(value), value, n) && TacsKept(old(value), value, n)
      ensures EntryList(value, n) == data[1..1 + 6 * n]
      ensures out.bytes == old(out.bytes) + data[1..1 + 6 * n]
    {
      var size := 1;
      assert data[1..1] == [];
      for i := 0 to n
        invariant size == 1 + 6 * i
        invariant value.kind == old(value).kind && value.count == old(value).count
        invariant PlmnsKept(old(value), value, i) && TacsKept(old(value), value, i)
        invariant EntryList(value, i) == data[1..size]
        invariant out.bytes == old(out.bytes) + data[1..size]
      {
        ghost var before := value;
        DecodePlmn(data, size, i, out);
        DecodeTac(data, size + 3, i, out);
        EntryListLocal(before, value, i);
        Chained(old(out.bytes), data, 1, size, size + 3, size + 6);
        size := size + 6;
      }
    }

    /** List type 0: one PLMN, then the codes. */
    method DecodeType0(data: seq<byte>, out: ByteVector)
      requires value.kind == 0 && value.count <= 16 && |data| >= 4 + 3 * value.count
      modifies this, out
      ensures value.kind == 0 && value.count == old(value).count
      ensures Content(value) == data[1..4 + 3 * value.count]
      ensures out.bytes == old(out.bytes) + data[1..4 + 3 * value.count]
      ensures PlmnsKept(old(value), value, 1) && TacsKept(old(value), value, value.count)
    {
      DecodePlmn(data, 1, 0, out);
      DecodeTacs(data, value.count, out);
      assert data[1..4 + 3 * value.count] == data[1..4] + data[4..4 + 3 * value.count];
    }

    /** List type 1: one PLMN and one code. */
    method DecodeType1(data: seq<byte>, out: ByteVector)
      requires value.kind == 1 && |data| >= 7
      modifies this, out
      ensures value.kind == 1 && value.count == old(value).count
      ensures Content(value) == data[1..7] && out.bytes == old(out.bytes) + data[1..7]
      ensures PlmnsKept(old(value), value, 1) && TacsKept(old(value), value, 1)
    {
      DecodePlmn(data, 1, 0, out);
      DecodeTac(data, 4, 0, out);
      assert data[1..7] == data[1..4] + data[4..7];
    }

    /** Everything after the first octet, by list type. */
    method DecodeContent(data: seq<byte>, out: ByteVector) returns (size: int)
      requires data != [] && Readable(data)
      requires value.kind == OctetKind(data[0]) && value.count == data[0] % 32
      modifies this, out
      ensures value.kind == old(value).kind && value.count == old(value).count
      ensures size == 1 + Announced(data[0])
      ensures Content(value) == data[1..size] && out.bytes == old(out.bytes) + data[1..size]
      ensures RestKept(old(value), value, data[0])
    {
      size := 1;
      match value.kind
      case 0 =>
        DecodeType0(data, out);
        size := size + 3 + 3 * value.count;
      case 1 =>
        DecodeType1(data, out);
        size := size + 6;
      case 2 =>
        DecodeEntries(data, value.count, out);
        size := size + 6 * value.count;
      case _ =>
    }

    /** On every readable buffer: consumes what the first octet announces, echoes it with that octet's top bit cleared,
        and leaves in the object the list whose encoding the echo is. */
    method Decode(data: seq<byte>, out: ByteVector) returns (size: int)
      requires Readable(data)
      modifies this, out
      ensures data == [] ==> size == -1 && value == old(value) && out.bytes == old(out.bytes)
      ensures data != [] ==> size == 1 + Announced(data[0])
      ensures data != [] ==> value.kind == OctetKind(data[0]) && value.count == data[0] % 32 && Canonical(value)
      ensures data != [] ==> PtaiBytes(value) == [data[0] % 128] + data[1..size]
      ensures data != [] ==> out.bytes == old(out.bytes) + PtaiBytes(value)
      ensures data != [] ==> RestKept(old(value), value, data[0])
      ensures data != [] ==>
        && value.kind == data[0] / 32 % 4 && value.count == data[0] % 32 && size <= |data|
        && var s := data[..size];
           if value.kind == 0 then
             && |s| == 4 + 3 * value.count && s[1] == value.mcc12[0] && s[2] == value.mcc3mnc3[0]
             && s[3] == value.mnc12[0]
             && forall i :: 0 <= i < value.count ==>
                  && s[4 + 3 * i] == value.tacs[i].t0 && s[5 + 3 * i] == value.tacs[i].t1
                  && s[6 + 3 * i] == value.tacs[i].t2
           else if value.kind == 1 then
             && |s| == 7 && s[1] == value.mcc12[0] && s[2] == value.mcc3mnc3[0] && s[3] == value.mnc12[0]
             && s[4] == value.tacs[0].t0 && s[5] == value.tacs[0].t1 && s[6] == value.tacs[0].t2
           else if value.kind == 2 then
             && |s| == 1 + 6 * value.count
             && forall i :: 0 <= i < value.count ==>
                  && s[1 + 6 * i] == value.mcc12[i] && s[2 + 6 * i] == value.mcc3mnc3[i]
                  && s[3 + 6 * i] == value.mnc12[i]
                  && s[4 + 6 * i] == value.tacs[i].t0 && s[5 + 6 * i] == value.tacs[i].t1
                  && s[6 + 6 * i] == value.tacs[i].t2
           else |s| == 1
    {
      if data == [] {
        return -1;
      }
      size := DecodeSome(data, out);
      PtaiOctets(value);
      SameBehindOctet(PtaiBytes(value), data, size);
    }

    method DecodeSome(data: seq<byte>, out: ByteVector) returns (size: int)
      requires data != [] && Readable(data)
      modifies this, out
      ensures size == 1 + Announced(data[0])
      ensures value.kind == OctetKind(data[0]) && value.count == data[0] % 32 && Canonical(value)
      ensures PtaiBytes(value) == [data[0] % 128] + data[1..size]
      ensures out.bytes == old(out.bytes) + PtaiBytes(value)
      ensures RestKept(old(value), value, data[0])
    {
      ghost var was, start := value, out.bytes;
      value := value.(kind := data[0] / 32 % 4, count := data[0] % 32);
      ghost var tagged := value;
      UnpackedOctet(value, data[0]);
      out.PushBack(value.kind * 32 + value.count);
      size := DecodeContent(data, out);
      KeptThrough(was, tagged, value, data[0]);
      OctetThenContent(start, value, data[0]);
    }
  }

  // The encoding by position.

  lemma {:induction false} TacListOctets(p: Ptai, n: nat)
    requires n <= 16
    ensures forall i :: 0 <= i < n ==>
      var s := TacList(p, n);
      s[3 * i] == p.tacs[i].t0 && s[3 * i + 1] == p.tacs[i].t1 && s[3 * i + 2] == p.tacs[i].t2
  {
    if n > 0 {
      TacListOctets(p, n - 1);
      var s, before := TacList(p, n), TacList(p, n - 1);
      forall i | 0 <= i < n
        ensures s[3 * i] == p.tacs[i].t0 && s[3 * i + 1] == p.tacs[i].t1 && s[3 * i + 2] == p.tacs[i].t2
      {
        if i < n - 1 {
          assert s[3 * i] == before[3 * i] && s[3 * i + 1] == before[3 * i + 1] && s[3 * i + 2] == before[3 * i + 2];
        }
      }
    }
  }

  lemma {:induction false} EntryListOctets(p: Ptai, n: nat)
    requires n <= 16
    ensures forall i :: 0 <= i < n ==>
      var s := EntryList(p, n);
      && s[6 * i] == p.mcc12[i] && s[6 * i + 1] == p.mcc3mnc3[i] && s[6 * i + 2] == p.mnc12[i]
      && s[6 * i + 3] == p.tacs[i].t0 && s[6 * i + 4] == p.tacs[i].t1 && s[6 * i + 5] == p.tacs[i].t2
  {
    if n > 0 {
      EntryListOctets(p, n - 1);
      var s, before := EntryList(p, n), EntryList(p, n - 1);
      forall i | 0 <= i < n
        ensures s[6 * i] == p.mcc12[i] && s[6 * i + 1] == p.mcc3mnc3[i] && s[6 * i + 2] == p.mnc12[i]
        ensures s[6 * i + 3] == p.tacs[i].t0 && s[6 * i + 4] == p.tacs[i].t1 && s[6 * i + 5] == p.tacs[i].t2
      {
        if i < n - 1 {
          assert s[6 * i] == before[6 * i] && s[6 * i + 1] == before[6 * i + 1] && s[6 * i + 2] == before[6 * i + 2];
          assert s[6 * i + 3] == before[6 * i + 3] && s[6 * i + 4] == before[6 * i + 4];
          assert s[6 * i + 5] == before[6 * i + 5];
        }
      }
    }
  }

  lemma PtaiOctets(p: Ptai)
    requires Encodable(p)
    ensures PtaiBytes(p)[0] == p.kind % 4 * 32 + p.count % 32
    ensures var s := PtaiBytes(p);
            if p.kind == 0 then
              && |s| == 4 + 3 * p.count && s[1] == p.mcc12[0] && s[2] == p.mcc3mnc3[0] && s[3] == p.mnc12[0]
              && forall i :: 0 <= i < p.count ==>
                   s[4 + 3 * i] == p.tacs[i].t0 && s[5 + 3 * i] == p.tacs[i].t1 && s[6 + 3 * i] == p.tacs[i].t2
            else if p.kind == 1 then
              && |s| == 7 && s[1] == p.mcc12[0] && s[2] == p.mcc3mnc3[0] && s[3] == p.mnc12[0]
              && s[4] == p.tacs[0].t0 && s[5] == p.tacs[0].t1 && s[6] == p.tacs[0].t2
            else if p.kind == 2 then
              && |s| == 1 + 6 * p.count
              && forall i :: 0 <= i < p.count ==>
                   && s[1 + 6 * i] == p.mcc12[i] && s[2 + 6 * i] == p.mcc3mnc3[i] && s[3 + 6 * i] == p.mnc12[i]
                   && s[4 + 6 * i] == p.tacs[i].t0 && s[5 + 6 * i] == p.tacs[i].t1 && s[6 + 6 * i] == p.tacs[i].t2
            else |s| == 1
  {
    match p.kind
    case 0 => Type0Octets(p);
    case 1 => assert Content(p) == [p.mcc12[0], p.mcc3mnc3[0], p.mnc12[0], p.tacs[0].t0, p.tacs[0].t1, p.tacs[0].t2];
    case 2 => Type2Octets(p);
    case _ =>
  }

  lemma Type0Octets(p: Ptai)
    requires p.kind == 0 && p.count <= 16
    ensures var s := PtaiBytes(p);
            && s[1] == p.mcc12[0] && s[2] == p.mcc3mnc3[0] && s[3] == p.mnc12[0]
            && forall i :: 0 <= i < p.count ==>
                 s[4 + 3 * i] == p.tacs[i].t0 && s[5 + 3 * i] == p.tacs[i].t1 && s[6 + 3 * i] == p.tacs[i].t2
  {
    var s, list := PtaiBytes(p), TacList(p, p.count);
    TacListOctets(p, p.count);
    forall i | 0 <= i < p.count
      ensures s[4 + 3 * i] == p.tacs[i].t0 && s[5 + 3 * i] == p.tacs[i].t1 && s[6 + 3 * i] == p.tacs[i].t2
    {
      assert s[4 + 3 * i] == list[3 * i] && s[5 + 3 * i] == list[3 * i + 1] && s[6 + 3 * i] == list[3 * i + 2];
    }
  }

  lemma Type2Octets(p: Ptai)
    requires p.kind == 2 && p.count <= 16
    ensures var s := PtaiBytes(p);
            forall i :: 0 <= i < p.count ==>
              && s[1 + 6 * i] == p.mcc12[i] && s[2 + 6 * i] == p.mcc3mnc3[i] && s[3 + 6 * i] == p.mnc12[i]
              && s[4 + 6 * i] == p.tacs[i].t0 && s[5 + 6 * i] == p.tacs[i].t1 && s[6 + 6 * i] == p.tacs[i].t2
  {
    var s, list := PtaiBytes(p), EntryList(p, p.count);
    EntryListOctets(p, p.count);
    forall i | 0 <= i < p.count
      ensures s[1 + 6 * i] == p.mcc12[i] && s[2 + 6 * i] == p.mcc3mnc3[i] && s[3 + 6 * i] == p.mnc12[i]
      ensures s[4 + 6 * i] == p.tacs[i].t0 && s[5 + 6 * i] == p.tacs[i].t1 && s[6 + 6 * i] == p.tacs[i].t2
    {
      assert s[1 + 6 * i] == list[6 * i] && s[2 + 6 * i] == list[6 * i + 1] && s[3 + 6 * i] == list[6 * i + 2];
      assert s[4 + 6 * i] == list[6 * i + 3] && s[5 + 6 * i] == list[6 * i + 4] && s[6 + 6 * i] == list[6 * i + 5];
    }
  }

  lemma SameBehindOctet(s: seq<byte>, data: seq<byte>, size: nat)
    requires 0 < size <= |data| && s == [data[0] % 128] + data[1..size]
    ensures |data[..size]| == |s|
    ensures forall k :: 1 <= k < size ==> data[..size][k] == s[k]
  {
  }

  lemma KeptThrough(was: Ptai, tagged: Ptai, now: Ptai, octet: byte)
    requires tagged == was.(kind := tagged.kind, count := tagged.count) && RestKept(tagged, now, octet)
    ensures RestKept(was, now, octet)
  {
  }

  lemma OctetThenContent(start: seq<byte>, p: Ptai, octet: byte)
    requires Encodable(p) && p.kind == OctetKind(octet) && p.count == octet % 32
    ensures PtaiBytes(p) == [octet % 128] + Content(p)
    ensures start + [octet % 128] + Content(p) == start + PtaiBytes(p)
  {
    UnpackedOctet(p, octet);
    Associate(start, [octet % 128], Content(p));
  }

  lemma Chained(before: seq<byte>, data: seq<byte>, a: nat, b: nat, c: nat, d: nat)
    requires a <= b <= c <= d <= |data|
    ensures data[a..d] == data[a..b] + data[b..c] + data[c..d]
    ensures before + data[a..d] == before + data[a..b] + data[b..c] + data[c..d]
  {
  }

  lemma Associate(a: seq<byte>, b: seq<byte>, c: seq<byte>)
    ensures a + b + c == a + (b + c)
  {
  }

  const TAI_LIST: byte := 0x54

  /** The list as a tagged element. The length octet is always 7, whatever the list. */
  class TaiList {
    const list: PartialTrackingArea

    constructor (value: Ptai)
      ensures fresh(list) && list.value == value
    {
      list := new PartialTrackingArea(value);
    }

    method CodeTLV(data: ByteVector, iei: byte) returns (size: int)
      requires Encodable(list.value)
      modifies data
      ensures iei == 0 ==> size == -1 && data.bytes == old(data.bytes)
      ensures iei != 0 ==>
        && size == 2 + |PtaiBytes(list.value)|
        && data.bytes == old(data.bytes) + [iei, 7] + PtaiBytes(list.value)
    {
      if iei <= 0 {
        return -1;
      }
      data.PushBack(iei);
      data.PushBack(7);
      size := list.CodeV(data);
      size := size + 2;
    }

    method DecodeTLV(data: seq<byte>, out: ByteVector) returns (size: int)
      requires data != [] ==> |data| > 1 && Readable(data[2..])
      modifies list, out
      ensures |data| <= 2 ==> size == |data| - 1 && list.value == old(list.value) && out.bytes == old(out.bytes) + data
      ensures |data| > 2 ==> size == 3 + Announced(data[2])
      ensures |data| > 2 ==>
        list.value.kind == OctetKind(data[2]) && list.value.count == data[2] % 32 && Canonical(list.value)
      ensures |data| > 2 ==> PtaiBytes(list.value) == [data[2] % 128] + data[3..size]
      ensures |data| > 2 ==> out.bytes == old(out.bytes) + [data[0], data[1]] + PtaiBytes(list.value)
      ensures |data| > 2 ==> RestKept(old(list.value), list.value, data[2])
    {
      if data == [] {
        return -1;
      }
      out.PushBack(data[0]);
      out.PushBack(data[1]);
      assert out.bytes == old(out.bytes) + [data[0], data[1]];
      var tmp := data[2..];
      var n := list.Decode(tmp, out);
      size := n + 2;
      if tmp == [] {
        assert data == [data[0], data[1]];
      } else {
        SliceBehind(data, 2, 1, n);
      }
    }
  }
}
