/** The whole link: a host and a target joined by two FIFO byte streams, stepped in any order. */
module Link {
  import opened Octets
  import opened Matcher
  import opened Frames
  import T = TargetStream
  import H = HostStream

  /** Payloads whose frame fits the target's transmit buffer. */
  type AnswerPayload = s: seq<byte> | |s| <= MAX_TCPMSG_SIZE - RESPONSE_OVERHEAD

  datatype Answer = Answer(status: i16, unit: u16, payload: AnswerPayload)

  /** The command dispatcher, left uninterpreted. */
  type Handler = (u16, u16, Payload) -> Answer

  /** The response to a command: its own group, and what the handler says. */
  function Reply(h: Handler, c: Command): Response {
    var a := h(c.group, c.unit, c.payload);
    Response(a.status, c.group, a.unit, a.payload)
  }

  function Replies(h: Handler, cs: seq<Command>): (rs: seq<Response>)
    ensures |rs| == |cs|
    ensures forall i :: 0 <= i < |cs| ==> rs[i] == Reply(h, cs[i])
  {
    seq(|cs|, i requires 0 <= i < |cs| => Reply(h, cs[i]))
  }

  datatype Fate = Delivered(response: Response) | Lost(response: Response)

  function Answers(log: seq<Fate>): (rs: seq<Response>)
    ensures |rs| == |log|
    ensures forall i :: 0 <= i < |log| ==> rs[i] == log[i].response
  {
    seq(|log|, i requires 0 <= i < |log| => log[i].response)
  }

  /** The bytes at each place on the way round, and the history of the run: the commands sent, the responses framed
      but not yet received, the unread tail of a response a timed-out call had begun, and the fate of the others. */
  datatype System = System(
    hostOut: seq<byte>, targetIn: seq<byte>, target: T.Rx, targetOut: seq<byte>, hostIn: seq<byte>,
    sent: seq<Command>, inFlight: seq<Response>, stray: seq<byte>, log: seq<Fate>)

  const INITIAL: System :=
    System([], [], T.Rx(T.Header, 0, [0, 0, 0, 0], [0, 0, 0, 0], 0, 0, 0, []), [], [], [], [], [], [])

  datatype Action =
    | Send(command: Command)    // a transaction frames its command
    | HostWrites(n: nat)        // some of the host's frame reaches the target's socket
    | TargetTurn                // one turn of the target's receive loop, with its dispatch and framing
    | TargetWrites(n: nat)      // some of the target's frames reaches the host's socket
    | HostReceives              // a call of the host's receive routine returns a response
    | HostGivesUp(n: nat)       // a call of it times out, having read n bytes

  /** `n` bytes end inside the first response in flight. */
  predicate InsideFirst(s: System, n: nat) {
    |s.stray| < n && s.inFlight != [] && n - |s.stray| <= |ResponseFrame(s.inFlight[0])|
  }

  /** A call that gives up inside a response leaves a tail in which no header occurs. */
  ghost predicate CleanCut(s: System, n: nat) {
    InsideFirst(s, n) ==> Absent(RESPONSE_HEADER, ResponseFrame(s.inFlight[0])[n - |s.stray|..])
  }

  /** That is exactly what the next call needs: it receives the next response, whatever that is, iff the cut is
      clean. */
  lemma CleanCutExact(s: System, n: nat)
    requires InsideFirst(s, n)
    ensures var tail := ResponseFrame(s.inFlight[0])[n - |s.stray|..];
            CleanCut(s, n) <==> forall second, rest :: H.Recovers(tail, second, rest)
  {
    H.RecoversExactly(s.inFlight[0], n - |s.stray|);
  }

  ghost predicate Enabled(s: System, a: Action) {
    match a
    case Send(c) => c.unit != 0
    case HostWrites(n) => 0 < n <= |s.hostOut|
    case TargetTurn => T.Valid(s.target) && T.Ready(s.target, s.targetIn)
    case TargetWrites(n) => 0 < n <= |s.targetOut|
    case HostReceives => H.Receive(s.hostIn).Got?
    case HostGivesUp(n) => n <= |s.hostIn| && H.Receive(s.hostIn[..n]).Starved? && CleanCut(s, n)
  }

  ghost function Next(h: Handler, s: System, a: Action): System
    requires Enabled(s, a)
  {
    match a
    case Send(c) => s.(hostOut := s.hostOut + CommandFrame(c), sent := s.sent + [c])
    case HostWrites(n) => s.(hostOut := s.hostOut[n..], targetIn := s.targetIn + s.hostOut[..n])
    case TargetTurn =>
      var n := T.Need(s.target);
      var t := T.Turn(s.target, s.targetIn[..n]);
      var rs := Replies(h, t.out);
      s.(target := t.rx, targetIn := s.targetIn[n..],
         targetOut := s.targetOut + ResponseFrames(rs), inFlight := s.inFlight + rs)
    case TargetWrites(n) => s.(targetOut := s.targetOut[n..], hostIn := s.hostIn + s.targetOut[..n])
    case HostReceives =>
      var got := H.Receive(s.hostIn);
      s.(hostIn := s.hostIn[got.used..], stray := [], inFlight := if s.inFlight == [] then [] else s.inFlight[1..],
         log := s.log + [Delivered(got.response)])
    case HostGivesUp(n) =>
      var s' := s.(hostIn := s.hostIn[n..]);
      if n <= |s.stray| then s'.(stray := s.stray[n..])
      else if !InsideFirst(s, n) then s' // never reached: GiveUpStaysInside
      else
        s'.(stray := ResponseFrame(s.inFlight[0])[n - |s.stray|..], inFlight := s.inFlight[1..],
            log := s.log + [Lost(s.inFlight[0])])
  }

  /** What the target will still dispatch once everything written reaches it. */
  ghost function Pending(s: System): T.Ran
    requires T.Valid(s.target)
  {
    T.Run(s.target, s.targetIn + s.hostOut)
  }

  /** Conservation: responses received or lost, then those in flight, then the answers to the commands still on their
      way, are the handler's answers to the commands sent. The bytes on the way back are whole frames behind a
      header-free tail, and the bytes on the way out are whole frames from wherever the target is. */
  ghost predicate Inv(h: Handler, s: System) {
    && T.Valid(s.target)
    && Pending(s).rest == [] && T.Idle(Pending(s).rx)
    && s.hostIn + s.targetOut == s.stray + ResponseFrames(s.inFlight)
    && Absent(RESPONSE_HEADER, s.stray)
    && Answers(s.log) + s.inFlight + Replies(h, Pending(s).out) == Replies(h, s.sent)
  }

  lemma InitialInv(h: Handler)
    ensures Inv(h, INITIAL)
  {
  }

  lemma RepliesAppend(h: Handler, a: seq<Command>, b: seq<Command>)
    ensures Replies(h, a + b) == Replies(h, a) + Replies(h, b)
  {
  }

  lemma SendKeeps(h: Handler, s: System, c: Command)
    requires Inv(h, s) && c.unit != 0
    ensures Inv(h, Next(h, s, Send(c)))
  {
    var wire, out := s.targetIn + s.hostOut, Pending(s).out;
    assert s.targetIn + (s.hostOut + CommandFrame(c)) == wire + CommandFrame(c);
    T.OneMoreFrame(s.target, wire, c);
    RepliesAppend(h, s.sent, [c]);
    RepliesAppend(h, out, [c]);
    Associates(Answers(s.log), s.inFlight, Replies(h, out), Replies(h, [c]));
  }

  lemma Associates(a: seq<Response>, b: seq<Response>, c: seq<Response>, d: seq<Response>)
    ensures a + b + (c + d) == a + b + c + d
    ensures a + (b + c) + d == a + b + (c + d)
  {
  }

  lemma HostWritesKeeps(h: Handler, s: System, n: nat)
    requires Inv(h, s) && Enabled(s, HostWrites(n))
    ensures Inv(h, Next(h, s, HostWrites(n)))
  {
    assert s.targetIn + s.hostOut[..n] + s.hostOut[n..] == s.targetIn + s.hostOut;
  }

  lemma TargetTurnKeeps(h: Handler, s: System)
    requires Inv(h, s) && Enabled(s, TargetTurn)
    ensures Inv(h, Next(h, s, TargetTurn))
  {
    var n := T.Need(s.target);
    var t := T.Turn(s.target, s.targetIn[..n]);
    var rs, out := Replies(h, t.out), T.Run(t.rx, s.targetIn[n..] + s.hostOut).out;
    PendingTurn(s, n, t);
    RepliesAppend(h, t.out, out);
    Associates(Answers(s.log), s.inFlight, rs, Replies(h, out));
    TargetOutGrows(s, rs);
  }

  lemma PendingTurn(s: System, n: nat, t: T.Turned)
    requires Enabled(s, TargetTurn) && n == T.Need(s.target) && t == T.Turn(s.target, s.targetIn[..n])
    ensures Pending(s) == T.Run(t.rx, s.targetIn[n..] + s.hostOut).Behind(t.out)
  {
    assert s.targetIn + s.hostOut == s.targetIn[..n] + (s.targetIn[n..] + s.hostOut);
    T.RunTurn(s.target, s.targetIn[..n], s.targetIn[n..] + s.hostOut);
  }

  lemma TargetOutGrows(s: System, rs: seq<Response>)
    requires s.hostIn + s.targetOut == s.stray + ResponseFrames(s.inFlight)
    ensures s.hostIn + (s.targetOut + ResponseFrames(rs)) == s.stray + ResponseFrames(s.inFlight + rs)
  {
    ResponseFramesAppend(s.inFlight, rs);
    Extend(s.hostIn, s.targetOut, s.stray, ResponseFrames(s.inFlight), ResponseFrames(rs));
  }

  lemma Extend(a: seq<byte>, b: seq<byte>, c: seq<byte>, d: seq<byte>, more: seq<byte>)
    requires a + b == c + d
    ensures a + (b + more) == c + (d + more)
  {
    assert a + (b + more) == a + b + more;
    assert c + (d + more) == c + d + more;
  }

  lemma TargetWritesKeeps(h: Handler, s: System, n: nat)
    requires Inv(h, s) && Enabled(s, TargetWrites(n))
    ensures Inv(h, Next(h, s, TargetWrites(n)))
  {
    assert s.hostIn + s.targetOut[..n] + s.targetOut[n..] == s.hostIn + s.targetOut;
  }

  /** What the host's receive routine sees: the first response in flight, exactly when all its bytes have arrived. */
  lemma HostSees(h: Handler, s: System, n: nat)
    requires Inv(h, s) && n <= |s.hostIn|
    ensures s.inFlight == [] ==> n <= |s.stray| && H.Receive(s.hostIn[..n]).Starved?
    ensures s.inFlight != [] ==>
      var first := |s.stray| + |ResponseFrame(s.inFlight[0])|;
      H.Receive(s.hostIn[..n]) == if n < first then H.Starved else H.Got(s.inFlight[0], first)
  {
    var all := s.hostIn + s.targetOut;
    assert s.hostIn[..n] == all[..n];
    if s.inFlight == [] {
      assert all == s.stray + [] == s.stray;
      AbsentPrefix(RESPONSE_HEADER, s.stray, n);
      H.JunkStarves(s.stray[..n]);
    } else {
      assert all == s.stray + (ResponseFrame(s.inFlight[0]) + ResponseFrames(s.inFlight[1..]));
      FirstFrame(s.stray, s.inFlight[0], ResponseFrames(s.inFlight[1..]), n);
    }
  }

  lemma FirstFrame(stray: seq<byte>, r: Response, rest: seq<byte>, n: nat)
    requires Absent(RESPONSE_HEADER, stray)
    requires n <= |stray + (ResponseFrame(r) + rest)|
    ensures var first := |stray| + |ResponseFrame(r)|;
            H.Receive((stray + (ResponseFrame(r) + rest))[..n]) == if n < first then H.Starved else H.Got(r, first)
  {
    var frame := ResponseFrame(r);
    var all, first := stray + (frame + rest), |stray| + |frame|;
    if n < first {
      H.IncompleteStarves(stray, r, n);
      assert all[..n] == (stray + frame)[..n];
    } else {
      H.ResponseRoundTrip(stray, r, rest[..n - first]);
      assert all[..n] == stray + frame + rest[..n - first];
    }
  }

  lemma HostReceivesKeeps(h: Handler, s: System)
    requires Inv(h, s) && Enabled(s, HostReceives)
    ensures Inv(h, Next(h, s, HostReceives))
  {
    var s' := Next(h, s, HostReceives);
    HostSees(h, s, |s.hostIn|);
    assert s.hostIn[..|s.hostIn|] == s.hostIn;
    var frame := ResponseFrame(s.inFlight[0]);
    var first := |s.stray| + |frame|;
    assert s'.hostIn + s'.targetOut == (s.hostIn + s.targetOut)[first..];
    assert s.stray + ResponseFrames(s.inFlight) == s.stray + frame + ResponseFrames(s.inFlight[1..]);
    assert s'.stray + ResponseFrames(s'.inFlight) == ResponseFrames(s.inFlight[1..]);
    NextAnswer(s, s');
  }

  /** Moving the first response from in flight to the log leaves their concatenation alone. */
  lemma NextAnswer(s: System, s': System)
    requires s.inFlight != [] && s'.inFlight == s.inFlight[1..]
    requires s'.log == s.log + [Delivered(s.inFlight[0])] || s'.log == s.log + [Lost(s.inFlight[0])]
    ensures Answers(s'.log) + s'.inFlight == Answers(s.log) + s.inFlight
  {
    assert Answers(s'.log) == Answers(s.log) + [s.inFlight[0]];
  }

  /** A timed-out call always stops short of the end of the first response: of a give-up, only the absence of a header
      in the tail is assumed. */
  lemma GiveUpStaysInside(h: Handler, s: System, n: nat)
    requires Inv(h, s)
    requires |s.stray| < n <= |s.hostIn| && H.Receive(s.hostIn[..n]).Starved?
    ensures InsideFirst(s, n) && n - |s.stray| < |ResponseFrame(s.inFlight[0])|
  {
    HostSees(h, s, n);
  }

  lemma HostGivesUpKeeps(h: Handler, s: System, n: nat)
    requires Inv(h, s) && Enabled(s, HostGivesUp(n))
    ensures Inv(h, Next(h, s, HostGivesUp(n)))
  {
    var s' := Next(h, s, HostGivesUp(n));
    CutInside(s.hostIn, s.targetOut, n);
    if n <= |s.stray| {
      AbsentSuffix(RESPONSE_HEADER, s.stray, n);
      CutInside(s.stray, ResponseFrames(s.inFlight), n);
    } else {
      GiveUpStaysInside(h, s, n);
      var frame, rest := ResponseFrame(s.inFlight[0]), ResponseFrames(s.inFlight[1..]);
      CutBeyond(s.stray, frame, rest, n);
      NextAnswer(s, s');
    }
  }

  lemma CutInside(a: seq<byte>, b: seq<byte>, n: nat)
    requires n <= |a|
    ensures (a + b)[n..] == a[n..] + b
  {
  }

  lemma CutBeyond(a: seq<byte>, b: seq<byte>, c: seq<byte>, n: nat)
    requires |a| <= n <= |a| + |b|
    ensures (a + (b + c))[n..] == b[n - |a|..] + c
  {
  }

  lemma NextKeeps(h: Handler, s: System, a: Action)
    requires Inv(h, s) && Enabled(s, a)
    ensures Inv(h, Next(h, s, a))
  {
    match a
    case Send(c) => SendKeeps(h, s, c);
    case HostWrites(n) => HostWritesKeeps(h, s, n);
    case TargetTurn => TargetTurnKeeps(h, s);
    case TargetWrites(n) => TargetWritesKeeps(h, s, n);
    case HostReceives => HostReceivesKeeps(h, s);
    case HostGivesUp(n) => HostGivesUpKeeps(h, s, n);
  }

  // Whole runs.

  ghost predicate Legal(h: Handler, s: System, run: seq<Action>)
    decreases |run|
  {
    run != [] ==> Enabled(s, run[0]) && Legal(h, Next(h, s, run[0]), run[1..])
  }

  ghost function Final(h: Handler, s: System, run: seq<Action>): System
    requires Legal(h, s, run)
    decreases |run|
  {
    if run == [] then s else Final(h, Next(h, s, run[0]), run[1..])
  }

  lemma {:induction false} RunKeeps(h: Handler, s: System, run: seq<Action>)
    requires Inv(h, s) && Legal(h, s, run)
    ensures Inv(h, Final(h, s, run))
    decreases |run|
  {
    if run != [] {
      NextKeeps(h, s, run[0]);
      RunKeeps(h, Next(h, s, run[0]), run[1..]);
    }
  }

  /** Pairing over whole runs: in any interleaving, the k-th response the host receives or loses is the answer to the
      k-th command sent; none is duplicated, reordered or invented. */
  lemma Pairing(h: Handler, run: seq<Action>)
    requires Legal(h, INITIAL, run)
    ensures var s := Final(h, INITIAL, run);
            && T.Valid(s.target)
            && Answers(s.log) + s.inFlight + Replies(h, Pending(s).out) == Replies(h, s.sent)
            && |s.log| <= |s.sent|
            && forall k :: 0 <= k < |s.log| ==>
                 var c, r := s.sent[k], s.log[k].response;
                 r.group == c.group && Answer(r.status, r.unit, r.payload) == h(c.group, c.unit, c.payload)
  {
    InitialInv(h);
    RunKeeps(h, INITIAL, run);
    var s := Final(h, INITIAL, run);
    var all := Answers(s.log) + s.inFlight + Replies(h, Pending(s).out);
    forall k | 0 <= k < |s.log|
      ensures s.log[k].response == Reply(h, s.sent[k])
    {
      assert all[k] == Replies(h, s.sent)[k];
    }
  }

  /** The step that makes progress when a command is still unanswered. */
  ghost function Progress(s: System): Action {
    if s.hostOut != [] then HostWrites(|s.hostOut|)
    else if s.targetIn != [] then TargetTurn
    else if s.targetOut != [] then TargetWrites(|s.targetOut|)
    else HostReceives
  }

  /** No deadlock: while a command sent has neither an answer nor a loss on record, some step is enabled. */
  lemma NoDeadlock(h: Handler, s: System)
    requires Inv(h, s)
    requires |s.log| < |s.sent|
    ensures Enabled(s, Progress(s))
  {
    assert s.targetIn + [] == s.targetIn;
    if s.hostOut == [] && s.targetIn == [] && s.targetOut == [] {
      assert Pending(s).out == [];
      assert |Replies(h, s.sent)| == |s.log| + |s.inFlight|;
      assert s.hostIn + [] == s.hostIn;
      HostSees(h, s, |s.hostIn|);
      assert s.hostIn[..|s.hostIn|] == s.hostIn;
      assert ResponseFrames(s.inFlight) == ResponseFrame(s.inFlight[0]) + ResponseFrames(s.inFlight[1..]);
    }
  }

  /** A receive delivers the answer to the first command not yet accounted for. */
  lemma ReceivesAnswer(h: Handler, s: System)
    requires Inv(h, s) && Enabled(s, HostReceives)
    ensures |s.log| < |s.sent|
    ensures Next(h, s, HostReceives).log == s.log + [Delivered(Reply(h, s.sent[|s.log|]))]
  {
    HostSees(h, s, |s.hostIn|);
    assert s.hostIn[..|s.hostIn|] == s.hostIn;
    var all := Answers(s.log) + s.inFlight + Replies(h, Pending(s).out);
    assert all[|s.log|] == s.inFlight[0] && all == Replies(h, s.sent);
  }

  lemma LegalStep(h: Handler, s: System, a: Action, run: seq<Action>)
    requires Enabled(s, a) && Legal(h, Next(h, s, a), run)
    ensures Legal(h, s, [a] + run)
    ensures Final(h, s, [a] + run) == Final(h, Next(h, s, a), run)
  {
    assert ([a] + run)[0] == a && ([a] + run)[1..] == run;
  }

  lemma {:induction false} LegalJoin(h: Handler, s: System, a: seq<Action>, b: seq<Action>)
    requires Legal(h, s, a) && Legal(h, Final(h, s, a), b)
    ensures Legal(h, s, a + b)
    ensures Final(h, s, a + b) == Final(h, Final(h, s, a), b)
    decreases |a|
  {
    if a == [] {
      NothingAdded(b);
    } else {
      HeadFirst(a, b);
      LegalJoin(h, Next(h, s, a[0]), a[1..], b);
      LegalStep(h, s, a[0], a[1..] + b);
    }
  }

  /** The next delivery: from every reachable state with a command outstanding there is a way on, without further
      commands or timeouts, to the delivery of the answer to the first of them. */
  lemma {:induction false} NextArrives(h: Handler, s: System) returns (run: seq<Action>)
    requires Inv(h, s)
    requires |s.log| < |s.sent|
    ensures Legal(h, s, run)
    ensures Final(h, s, run).sent == s.sent
    ensures Final(h, s, run).log == s.log + [Delivered(Reply(h, s.sent[|s.log|]))]
    decreases |s.hostOut|, |s.targetIn|, |s.targetOut|
  {
    NoDeadlock(h, s);
    var a := Progress(s);
    if a.HostReceives? {
      ReceivesAnswer(h, s);
      run := [];
    } else {
      NextKeeps(h, s, a);
      ProgressIsQuiet(h, s);
      run := NextArrives(h, Next(h, s, a));
    }
    LegalStep(h, s, a, run);
    run := [a] + run;
  }

  lemma ProgressIsQuiet(h: Handler, s: System)
    requires Enabled(s, Progress(s)) && !Progress(s).HostReceives?
    ensures var s' := Next(h, s, Progress(s));
            && s'.sent == s.sent && s'.log == s.log
            && (|s'.hostOut| < |s.hostOut|
                || (|s'.hostOut| == |s.hostOut| && |s'.targetIn| < |s.targetIn|)
                || (|s'.hostOut| == |s.hostOut| && |s'.targetIn| == |s.targetIn| && |s'.targetOut| < |s.targetOut|))
  {
  }

  /** Delivery: from every reachable state there is a way on, without further commands or timeouts, that delivers the
      answer to every outstanding command. */
  lemma {:induction false} Drains(h: Handler, s: System) returns (run: seq<Action>)
    requires Inv(h, s)
    ensures Legal(h, s, run)
    ensures var f := Final(h, s, run);
            && f.sent == s.sent && |f.log| == |s.sent| && s.log <= f.log
            && forall k :: |s.log| <= k < |f.log| ==> f.log[k] == Delivered(Reply(h, s.sent[k]))
    decreases |s.sent| - |s.log|
  {
    assert |Replies(h, s.sent)| == |s.log| + |s.inFlight| + |Pending(s).out|;
    if |s.log| == |s.sent| {
      run := [];
    } else {
      var first := NextArrives(h, s);
      RunKeeps(h, s, first);
      var more := Drains(h, Final(h, s, first));
      LegalJoin(h, s, first, more);
      run := first + more;
    }
  }

  // What the caller of a transaction is given. Nothing compares the ids of the answer with those of the command.

  /** A receive gives the answer to the command sent last, if that is the only one outstanding. */
  lemma InStep(h: Handler, s: System)
    requires Inv(h, s) && Enabled(s, HostReceives)
    requires |s.log| + 1 == |s.sent|
    ensures Next(h, s, HostReceives).log == s.log + [Delivered(Reply(h, s.sent[|s.sent| - 1]))]
  {
    ReceivesAnswer(h, s);
  }

  /** Otherwise it may be stale: whenever a command is outstanding and another is sent, as after a timeout between
      frames, there is a run in which the next receive gives the answer to the earlier one. */
  lemma StaleAnswer(h: Handler, s: System, c: Command) returns (run: seq<Action>)
    requires Inv(h, s) && |s.log| < |s.sent| && c.unit != 0
    ensures Legal(h, s, [HostGivesUp(0), Send(c)] + run)
    ensures var f := Final(h, s, [HostGivesUp(0), Send(c)] + run);
            f.sent == s.sent + [c] && f.log == s.log + [Delivered(Reply(h, s.sent[|s.log|]))]
  {
    assert s.hostIn[0..] == s.hostIn && s.stray[0..] == s.stray;
    assert H.Receive(s.hostIn[..0]).Starved?;
    assert Next(h, s, HostGivesUp(0)) == s;
    var s' := Next(h, s, Send(c));
    NextKeeps(h, s, Send(c));
    run := NextArrives(h, s');
    LegalStep(h, s, Send(c), run);
    LegalStep(h, s, HostGivesUp(0), [Send(c)] + run);
    assert [HostGivesUp(0), Send(c)] + run == [HostGivesUp(0)] + ([Send(c)] + run);
  }
}
