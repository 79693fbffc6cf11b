/** The delimiter matcher shared by all four receivers' header and footer states: on each byte, advance; else
    restart at one; else restart at zero. */
module Matcher {
  import opened Octets

  /** The property of the four delimiters that makes the short fallback enough. */
  ghost predicate Distinct(p: seq<byte>) {
    && |p| > 0
    && forall i, j :: 0 <= i < j < |p| ==> p[i] != p[j]
  }

  function Advance(p: seq<byte>, i: nat, b: byte): (j: nat)
    requires i < |p|
    ensures j <= |p|
  {
    if b == p[i] then i + 1
    else if b == p[0] then 1
    else 0
  }

  datatype Scan = Found(used: nat) | Pending(index: nat)

  /** Runs the matcher over a stream from index `i` until it accepts or the bytes run out. */
  function Scanning(p: seq<byte>, i: nat, s: seq<byte>): (r: Scan)
    requires i < |p|
    ensures r.Found? ==> 0 < r.used <= |s|
    ensures r.Pending? ==> r.index < |p|
    decreases |s|
  {
    if s == [] then Pending(i)
    else
      var j := Advance(p, i, s[0]);
      if j == |p| then Found(1)
      else
        match Scanning(p, j, s[1..])
        case Found(n) => Found(n + 1)
        case Pending(k) => Pending(k)
  }

  // What "the delimiter occurs" means, with no automaton.

  predicate EndsAt(p: seq<byte>, s: seq<byte>, n: int) {
    |p| <= n <= |s| && s[n - |p|..n] == p
  }

  ghost predicate FirstEnd(p: seq<byte>, s: seq<byte>, n: int) {
    && EndsAt(p, s, n)
    && forall m :: m < n ==> !EndsAt(p, s, m)
  }

  ghost predicate Absent(p: seq<byte>, s: seq<byte>) {
    forall n :: !EndsAt(p, s, n)
  }

  /** `i` is the length of the longest proper prefix of `p` that ends the history `h`: the index a matcher with the
      full failure function would hold. */
  ghost predicate Longest(p: seq<byte>, h: seq<byte>, i: int) {
    && 0 <= i < |p|
    && Overlap(p, h, i)
    && forall j :: i < j < |p| ==> !Overlap(p, h, j)
  }

  predicate Overlap(p: seq<byte>, h: seq<byte>, i: int)
    requires 0 <= i <= |p|
  {
    i <= |h| && h[|h| - i..] == p[..i]
  }

  lemma OverlapStep(p: seq<byte>, h: seq<byte>, b: byte, j: nat)
    requires 1 <= j <= |p|
    ensures Overlap(p, h + [b], j) <==> Overlap(p, h, j - 1) && b == p[j - 1]
  {
    var h' := h + [b];
    if j <= |h'| {
      assert h'[|h'| - j..] == h[|h| - (j - 1)..] + [b];
      assert p[..j] == p[..j - 1] + [p[j - 1]];
    }
  }

  /** Two different non-empty prefixes cannot both end the history: its last byte would be at two places of `p`. */
  lemma OneOverlap(p: seq<byte>, h: seq<byte>, i: nat, k: nat)
    requires Distinct(p)
    requires 0 < i < |p| && Overlap(p, h, i)
    requires 0 < k < |p| && Overlap(p, h, k)
    ensures i == k
  {
    assert h[|h| - i..][i - 1] == h[|h| - k..][k - 1];
    assert p[..i][i - 1] == p[..k][k - 1];
  }

  /** One byte keeps the index equal to the full failure function's, and accepts exactly when `p` has just ended. */
  lemma AdvanceIsLongest(p: seq<byte>, h: seq<byte>, i: nat, b: byte)
    requires Distinct(p)
    requires Longest(p, h, i)
    ensures Advance(p, i, b) == |p| <==> EndsAt(p, h + [b], |h| + 1)
    ensures Advance(p, i, b) < |p| ==> Longest(p, h + [b], Advance(p, i, b))
  {
    var h', j := h + [b], Advance(p, i, b);
    forall k | 1 <= k <= |p|
      ensures Overlap(p, h', k) ==> k <= j
      ensures k == j ==> Overlap(p, h', k)
    {
      OverlapStep(p, h, b, k);
      if k == 1 {
        assert h[|h|..] == p[..0];
      }
      if Overlap(p, h', k) && k > 1 && i > 0 {
        OneOverlap(p, h, i, k - 1);
      }
    }
    assert EndsAt(p, h', |h'|) <==> Overlap(p, h', |p|) by {
      if |p| <= |h'| {
        assert h'[|h'| - |p|..|h'|] == h'[|h'| - |p|..];
        assert p[..|p|] == p;
      }
    }
  }

  /** An occurrence in a prefix is an occurrence in the whole. */
  lemma EndsAtPrefix(p: seq<byte>, a: seq<byte>, b: seq<byte>, n: int)
    requires n <= |a|
    ensures EndsAt(p, a + b, n) <==> EndsAt(p, a, n)
  {
    if |p| <= n {
      assert (a + b)[n - |p|..n] == a[n - |p|..n];
    }
  }

  lemma FirstEndPrefix(p: seq<byte>, a: seq<byte>, b: seq<byte>, n: nat)
    requires FirstEnd(p, a, n)
    ensures FirstEnd(p, a + b, n)
  {
    forall m | m <= n
      ensures EndsAt(p, a + b, m) <==> EndsAt(p, a, m)
    {
      EndsAtPrefix(p, a, b, m);
    }
  }

  /** Appending one byte adds at most one occurrence, at the very end. */
  lemma AbsentStep(p: seq<byte>, h: seq<byte>, b: byte, rest: seq<byte>)
    requires Absent(p, h)
    ensures EndsAt(p, h + [b] + rest, |h| + 1) <==> EndsAt(p, h + [b], |h| + 1)
    ensures forall m :: m <= |h| ==> !EndsAt(p, h + [b] + rest, m)
    ensures !EndsAt(p, h + [b], |h| + 1) ==> Absent(p, h + [b])
  {
    EndsAtPrefix(p, h + [b], rest, |h| + 1);
    forall m | m <= |h|
      ensures !EndsAt(p, h + [b], m) && !EndsAt(p, h + [b] + rest, m)
    {
      EndsAtPrefix(p, h, [b], m);
      EndsAtPrefix(p, h + [b], rest, m);
    }
  }

  lemma {:induction false} ScanningFrom(p: seq<byte>, h: seq<byte>, i: nat, s: seq<byte>)
    requires Distinct(p)
    requires Longest(p, h, i)
    requires Absent(p, h)
    ensures match Scanning(p, i, s)
            case Found(n) => FirstEnd(p, h + s, |h| + n)
            case Pending(k) => Absent(p, h + s) && Longest(p, h + s, k)
    decreases |s|
  {
    if s == [] {
      assert h + s == h;
    } else {
      assert h + s == h + [s[0]] + s[1..];
      AdvanceIsLongest(p, h, i, s[0]);
      AbsentStep(p, h, s[0], s[1..]);
      var j := Advance(p, i, s[0]);
      if j < |p| {
        ScanningFrom(p, h + [s[0]], j, s[1..]);
      }
    }
  }

  /** Matcher exactness: on every stream the matcher accepts at the end of the first occurrence, never elsewhere, and
      otherwise holds the index of the full failure function. */
  lemma Exact(p: seq<byte>, s: seq<byte>)
    requires Distinct(p)
    ensures forall n: nat :: Scanning(p, 0, s) == Found(n) <==> FirstEnd(p, s, n)
    ensures Scanning(p, 0, s).Pending? <==> Absent(p, s)
    ensures Scanning(p, 0, s).Pending? ==> Longest(p, s, Scanning(p, 0, s).index)
  {
    assert forall j :: 0 < j < |p| ==> !Overlap(p, [], j);
    ScanningFrom(p, [], 0, s);
    NothingAdded(s);
  }

  /** Without distinct bytes the same matcher is wrong: it runs past this occurrence. */
  lemma DistinctIsNeeded()
    ensures EndsAt([1, 1, 2], [1, 1, 1, 2], 4)
    ensures Scanning([1, 1, 2], 0, [1, 1, 1, 2]) == Pending(0)
  {
    assert [1, 1, 1, 2][1..4] == [1, 1, 2];
    assert [1, 1, 1, 2][1..] == [1, 1, 2] && [1, 1, 2][1..] == [1, 2] && [1, 2][1..] == [2];
    assert Scanning([1, 1, 2], 1, [2]) == Pending(0);
    assert Scanning([1, 1, 2], 2, [1, 2]) == Pending(0);
    assert Scanning([1, 1, 2], 1, [1, 1, 2]) == Pending(0);
  }

  /** A stream may be scanned in pieces. */
  lemma {:induction false} ScanningAppend(p: seq<byte>, i: nat, a: seq<byte>, b: seq<byte>)
    requires i < |p|
    ensures match Scanning(p, i, a)
            case Found(n) => Scanning(p, i, a + b) == Found(n)
            case Pending(k) =>
              match Scanning(p, k, b)
              case Found(n) => Scanning(p, i, a + b) == Found(|a| + n)
              case Pending(m) => Scanning(p, i, a + b) == Pending(m)
    decreases |a|
  {
    if a == [] {
      assert a + b == b;
    } else {
      assert (a + b)[1..] == a[1..] + b;
      var j := Advance(p, i, a[0]);
      if j < |p| {
        ScanningAppend(p, j, a[1..], b);
      }
    }
  }

  /** From inside the pattern, the rest of the pattern completes it. */
  lemma {:induction false} ScanningTail(p: seq<byte>, i: nat, rest: seq<byte>)
    requires i < |p|
    ensures Scanning(p, i, p[i..] + rest) == Found(|p| - i)
    decreases |p| - i
  {
    var s := p[i..] + rest;
    if i + 1 < |p| {
      assert s[1..] == p[i + 1..] + rest;
      ScanningTail(p, i + 1, rest);
    }
  }

  /** Self-synchronisation: whatever index a matcher is left at, the pattern itself is accepted after exactly its own
      length. No false match straddles the bytes before it. */
  lemma Synchronises(p: seq<byte>, i: nat, rest: seq<byte>)
    requires Distinct(p) && i < |p|
    ensures Scanning(p, i, p + rest) == Found(|p|)
  {
    assert p[0..] == p;
    if i == 0 {
      ScanningTail(p, 0, rest);
    } else if |p| > 1 {
      assert (p + rest)[1..] == p[1..] + rest;
      ScanningTail(p, 1, rest);
    }
  }

  /** The pattern is found right after any junk in which it does not occur. */
  lemma AfterJunk(p: seq<byte>, junk: seq<byte>, rest: seq<byte>)
    requires Distinct(p)
    requires Absent(p, junk)
    ensures Scanning(p, 0, junk + p + rest) == Found(|junk| + |p|)
  {
    Exact(p, junk);
    ScanningAppend(p, 0, junk, p + rest);
    Synchronises(p, Scanning(p, 0, junk).index, rest);
    assert junk + p + rest == junk + (p + rest);
  }

  lemma EndsAtSuffix(p: seq<byte>, s: seq<byte>, k: nat, n: int)
    requires k <= |s| && EndsAt(p, s[k..], n)
    ensures EndsAt(p, s, k + n)
  {
    SliceBehind(s, k, n - |p|, n);
  }

  lemma AbsentSuffix(p: seq<byte>, s: seq<byte>, k: nat)
    requires Absent(p, s) && k <= |s|
    ensures Absent(p, s[k..])
  {
    forall n
      ensures !EndsAt(p, s[k..], n)
    {
      if EndsAt(p, s[k..], n) {
        EndsAtSuffix(p, s, k, n);
      }
    }
  }

  lemma AbsentPrefix(p: seq<byte>, s: seq<byte>, n: nat)
    requires Absent(p, s) && n <= |s|
    ensures Absent(p, s[..n])
  {
    assert s == s[..n] + s[n..];
    forall m
      ensures !EndsAt(p, s[..n], m)
    {
      if m <= n {
        EndsAtPrefix(p, s[..n], s[n..], m);
      }
    }
  }

  /** A plain search: try every starting place from the left. */
  function Search(p: seq<byte>, s: seq<byte>): (r: Option<nat>)
    requires |p| > 0
    ensures r.Some? ==> 0 < r.value <= |s|
    decreases |s|
  {
    if |s| < |p| then None
    else if s[..|p|] == p then Some(|p|)
    else
      match Search(p, s[1..])
      case Some(n) => Some(n + 1)
      case None => None
  }

  lemma EndsAtInTail(p: seq<byte>, s: seq<byte>, n: nat)
    requires |p| < n <= |s|
    ensures EndsAt(p, s, n) <==> EndsAt(p, s[1..], n - 1)
  {
    SliceBehind(s, 1, n - 1 - |p|, n - 1);
  }

  /** Occurrences in a sequence that does not begin with the pattern are those in its tail. */
  lemma OccursInTail(p: seq<byte>, s: seq<byte>, n: int)
    requires 0 < |p| <= |s| && s[..|p|] != p
    ensures EndsAt(p, s, n) <==> EndsAt(p, s[1..], n - 1)
  {
    if n == |p| {
      assert s[0..n] == s[..|p|];
    } else if |p| < n <= |s| {
      EndsAtInTail(p, s, n);
    }
  }

  lemma {:induction false} SearchFindsFirst(p: seq<byte>, s: seq<byte>)
    requires |p| > 0
    ensures match Search(p, s)
            case Some(n) => FirstEnd(p, s, n)
            case None => Absent(p, s)
    decreases |s|
  {
    if |s| >= |p| {
      if s[..|p|] == p {
        assert EndsAt(p, s, |p|) by { assert s[0..|p|] == s[..|p|]; }
      } else {
        SearchFindsFirst(p, s[1..]);
        forall n
          ensures EndsAt(p, s, n) <==> EndsAt(p, s[1..], n - 1)
        {
          OccursInTail(p, s, n);
        }
      }
    }
  }

  lemma SearchFinds(p: seq<byte>, s: seq<byte>, n: nat)
    requires |p| > 0 && FirstEnd(p, s, n)
    ensures Search(p, s) == Some(n)
  {
    SearchFindsFirst(p, s);
  }

  /** The one-pass matcher computes exactly what the plain search does. */
  lemma MatcherRefinesSearch(p: seq<byte>, s: seq<byte>)
    requires Distinct(p)
    ensures match Scanning(p, 0, s)
            case Found(n) => Search(p, s) == Some(n)
            case Pending(_) => Search(p, s) == None
  {
    Exact(p, s);
    SearchFindsFirst(p, s);
    match Scanning(p, 0, s) {
      case Found(n) => assert FirstEnd(p, s, n);
      case Pending(_) =>
    }
  }
}
