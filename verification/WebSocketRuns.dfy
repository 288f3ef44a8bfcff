/** Whole runs of the connection of Websocket/pushcpp/easywsclient.cpp: any sequence of sends, pings,
    closes, rounds of the dispatch loop and polls, with arbitrary partial sends and socket failures.  */
module WebSocketRuns {
  import opened Basics
  import opened WebSocketFrames
  import opened WebSocketConnection
  import opened WebSocketOverflow

  /** What successive calls of recv return until one would block; Failed is an error or end of file. */
  datatype Recv = Received(bytes: seq<byte>) | RecvFailed

  /** What successive calls of send return until one would block.  "Accepted(n)" takes n + 1 bytes, or
      all that is offered when that is less. */
  datatype Sent = Accepted(n: nat) | SendFailed

  function FailSocket(s: Sender): Sender {
    s.(readyState := CLOSED, socketOpen := false, failed := true)
  }

  function ReceiveLoop(c: Conn, script: seq<Recv>): Conn
    decreases script
  {
    if script == [] then c
    else match script[0]
      case Received(bytes) => ReceiveLoop(c.(rxbuf := c.rxbuf + bytes), script[1..])
      case RecvFailed => c.(out := FailSocket(c.out))
  }

  function Accept(s: Sender, n: nat): Sender {
    var k := if n + 1 < |s.txbuf| then n + 1 else |s.txbuf|;
    s.(sent := s.sent + s.txbuf[..k], txbuf := s.txbuf[k..])
  }

  /** A send on the closed descriptor fails. */
  function SendLoop(s: Sender, script: seq<Sent>): Sender
    decreases script
  {
    if s.txbuf == [] then s
    else if !s.socketOpen then FailSocket(s)
    else if script == [] then s
    else match script[0]
      case Accepted(n) => SendLoop(Accept(s, n), script[1..])
      case SendFailed => FailSocket(s)
  }

  function FinishClose(s: Sender): Sender {
    if s.txbuf == [] && s.readyState == CLOSING then s.(readyState := CLOSED, socketOpen := false) else s
  }

  function Poll(c: Conn, recvs: seq<Recv>, sends: seq<Sent>): Conn {
    if c.out.readyState == CLOSED then c
    else
      var c1 := ReceiveLoop(c, recvs);
      c1.(out := FinishClose(SendLoop(c1.out, sends)))
  }

  datatype Event =
    | SendMessage(message: Outgoing)
    | SendPing
    | CloseConnection
    | DispatchRound
    | PollSocket(recvs: seq<Recv>, sends: seq<Sent>)

  predicate Allowed(c: Conn, e: Event) {
    match e
    case SendMessage(m) => IsMessage(m)
    case DispatchRound => Fits(c.rxbuf) && CodeRound(c) != Undefined
    case _ => true
  }

  function Step(c: Conn, e: Event): Conn
    requires Allowed(c, e)
  {
    match e
    case SendMessage(m) => c.(out := Queue(c.out, m))
    case SendPing => c.(out := Queue(c.out, Out(PING, [])))
    case CloseConnection => c.(out := Queue(c.out, OutClose))
    case DispatchRound => if CodeRound(c).Took? then CodeRound(c).next else c
    case PollSocket(recvs, sends) => Poll(c, recvs, sends)
  }

  /** The answer of an OPEN connection to the frame at the front. */
  function Reply(rx: seq<byte>): seq<Outgoing>
    requires Fits(rx) && WholeInCode(rx) && (Complete(rx) || !UsesPayload(rx[0] % 16))
  {
    var opcode := rx[0] % 16;
    if opcode == PING then [Out(PONG, FrameOf(rx).payload)]
    else if UsesPayload(opcode) || opcode == PONG then [] else [OutClose]
  }

  /** The frames that a step adds to the stream. */
  function Queued(c: Conn, e: Event): seq<Outgoing>
    requires Allowed(c, e)
  {
    if c.out.readyState != OPEN then []
    else match e
      case SendMessage(m) => [m]
      case SendPing => [Out(PING, [])]
      case CloseConnection => [OutClose]
      case DispatchRound => if CodeRound(c).Took? then Reply(c.rxbuf) else []
      case PollSocket(_, _) => []
  }

  function Fresh(useMask: bool): Conn {
    Conn([], [], Sender(useMask, [], OPEN, true, false, []))
  }

  predicate AllowedRun(c: Conn, events: seq<Event>)
    decreases events
  {
    events == [] || (Allowed(c, events[0]) && AllowedRun(Step(c, events[0]), events[1..]))
  }

  function Run(c: Conn, events: seq<Event>): Conn
    requires AllowedRun(c, events)
    decreases events
  {
    if events == [] then c else Run(Step(c, events[0]), events[1..])
  }

  function QueuedInRun(c: Conn, events: seq<Event>): seq<Outgoing>
    requires AllowedRun(c, events)
    decreases events
  {
    if events == [] then [] else Queued(c, events[0]) + QueuedInRun(Step(c, events[0]), events[1..])
  }

  // ---- Invariant -------------------------------------------------------------------------

  /** At most one close frame, and nothing after it. */
  predicate CloseLast(outs: seq<Outgoing>) {
    forall i | 0 <= i < |outs| - 1 :: outs[i] != OutClose
  }

  predicate EndsInClose(outs: seq<Outgoing>) {
    outs != [] && outs[|outs| - 1] == OutClose
  }

  /** The bytes sent and the bytes still waiting are exactly the frames queued so far. */
  ghost predicate StreamInv(useMask: bool, s: Sender, queued: seq<Outgoing>) {
    && s.useMask == useMask && s.sent + s.txbuf == EncodeAll(useMask, queued)
    && CloseLast(queued)
    && (s.readyState == OPEN ==> OutClose !in queued)
    && (s.readyState == CLOSING ==> EndsInClose(queued))
    && (s.socketOpen <==> s.readyState != CLOSED)
    && (s.failed ==> s.readyState == CLOSED)
    && (s.readyState == CLOSED && !s.failed ==> s.txbuf == [] && EndsInClose(queued))
  }

  function Rank(r: ReadyState): nat {
    match r case OPEN => 0 case CLOSING => 1 case CLOSED => 2
  }

  /** readyState never goes back, and skips CLOSING only when the socket failed. */
  predicate Forward(s: Sender, s': Sender) {
    && Rank(s.readyState) <= Rank(s'.readyState)
    && (s.readyState == OPEN && s'.readyState == CLOSED ==> s'.failed)
  }

  // ---- Queueing ----------------------------------------------------------------------------

  lemma {:induction false} QueueAllKeeps(useMask: bool, s: Sender, queued: seq<Outgoing>, outs: seq<Outgoing>)
    requires StreamInv(useMask, s, queued) && s.readyState == OPEN && CloseLast(outs)
    ensures var s' := QueueAll(s, outs); StreamInv(useMask, s', queued + outs) && s'.readyState != CLOSED
    decreases outs
  {
    if outs == [] {
      assert queued + outs == queued;
    } else if outs[0] == OutClose {
      assert |outs| == 1 && outs == [OutClose];
      QueueClose(useMask, s, queued);
      assert QueueAll(Queue(s, OutClose), outs[1..]) == Queue(s, OutClose);
    } else {
      var o := outs[0];
      QueueOne(useMask, s, queued, o);
      QueueAllKeeps(useMask, Queue(s, o), queued + [o], outs[1..]);
      assert outs == [o] + outs[1..];
      Associative(queued, [o], outs[1..]);
    }
  }

  lemma {:induction false} EncodeOne(useMask: bool, queued: seq<Outgoing>, o: Outgoing)
    ensures EncodeAll(useMask, queued + [o]) == EncodeAll(useMask, queued) + EncodeOut(useMask, o)
  {
    EncodeAllConcat(useMask, queued, [o]);
    var one: seq<Outgoing> := [o];
    assert one[1..] == [];
    assert EncodeAll(useMask, one) == EncodeOut(useMask, o) + [] == EncodeOut(useMask, o);
  }

  lemma {:induction false} QueueOne(useMask: bool, s: Sender, queued: seq<Outgoing>, o: Outgoing)
    requires StreamInv(useMask, s, queued) && s.readyState == OPEN && o != OutClose
    ensures StreamInv(useMask, Queue(s, o), queued + [o]) && Queue(s, o).readyState == OPEN
  {
    EncodeOne(useMask, queued, o);
    Associative(s.sent, s.txbuf, EncodeOut(useMask, o));
  }

  lemma {:induction false} QueueClose(useMask: bool, s: Sender, queued: seq<Outgoing>)
    requires StreamInv(useMask, s, queued) && s.readyState == OPEN
    ensures StreamInv(useMask, Queue(s, OutClose), queued + [OutClose]) && Queue(s, OutClose).readyState == CLOSING
  {
    EncodeOne(useMask, queued, OutClose);
    Associative(s.sent, s.txbuf, EncodeOut(useMask, OutClose));
  }

  // ---- Polling -------------------------------------------------------------------------------

  lemma {:induction false} ReceiveLoopOut(c: Conn, script: seq<Recv>)
    ensures ReceiveLoop(c, script).out == c.out || ReceiveLoop(c, script).out == FailSocket(c.out)
    decreases script
  {
    if script != [] && script[0].Received? {
      ReceiveLoopOut(c.(rxbuf := c.rxbuf + script[0].bytes), script[1..]);
    }
  }

  lemma {:induction false} SendLoopKeeps(useMask: bool, s: Sender, queued: seq<Outgoing>, script: seq<Sent>)
    requires StreamInv(useMask, s, queued)
    ensures var s' := SendLoop(s, script);
            && StreamInv(useMask, s', queued)
            && (s'.readyState == s.readyState || s'.failed)
    decreases script
  {
    if s.txbuf != [] && s.socketOpen && script != [] && script[0].Accepted? {
      var s1 := Accept(s, script[0].n);
      var k := |s.txbuf| - |s1.txbuf|;
      assert s.txbuf == s.txbuf[..k] + s.txbuf[k..];
      Associative(s.sent, s.txbuf[..k], s.txbuf[k..]);
      SendLoopKeeps(useMask, s1, queued, script[1..]);
    }
  }

  /** What is received up to position "k". */
  function ReceivedBytes(script: seq<Recv>, k: nat): seq<byte>
    requires k <= |script| && forall i | 0 <= i < k :: script[i].Received?
    decreases k
  {
    if k == 0 then [] else ReceivedBytes(script, k - 1) + script[k - 1].bytes
  }

  lemma {:induction false} ReceivedFirst(script: seq<Recv>, k: nat)
    requires 0 < k <= |script| && forall i | 0 <= i < k :: script[i].Received?
    ensures ReceivedBytes(script, k) == script[0].bytes + ReceivedBytes(script[1..], k - 1)
    decreases k
  {
    if k > 1 {
      ReceivedFirst(script, k - 1);
      Associative(script[0].bytes, ReceivedBytes(script[1..], k - 2), script[k - 1].bytes);
    }
  }

  /** The receive loop appends, in order, everything that comes before the first failure, and gives up the
      connection at that. */
  lemma {:induction false} ReceivesAll(c: Conn, script: seq<Recv>, k: nat)
    requires k <= |script| && (forall i | 0 <= i < k :: script[i].Received?) && (k < |script| ==> script[k].RecvFailed?)
    ensures ReceiveLoop(c, script).rxbuf == c.rxbuf + ReceivedBytes(script, k)
    ensures ReceiveLoop(c, script).received == c.received
    ensures ReceiveLoop(c, script).out ==
            if k == |script| then c.out else c.out.(readyState := CLOSED, socketOpen := false, failed := true)
    decreases k
  {
    if k > 0 {
      ReceivesAll(c.(rxbuf := c.rxbuf + script[0].bytes), script[1..], k - 1);
      ReceivedFirst(script, k);
      Associative(c.rxbuf, script[0].bytes, ReceivedBytes(script[1..], k - 1));
    }
  }

  /** The number of bytes that the first "k" sends can take. */
  function Capacity(script: seq<Sent>, k: nat): nat
    requires k <= |script| && forall i | 0 <= i < k :: script[i].Accepted?
    decreases k
  {
    if k == 0 then 0 else Capacity(script, k - 1) + script[k - 1].n + 1
  }

  lemma {:induction false} CapacityFirst(script: seq<Sent>, k: nat)
    requires 0 < k <= |script| && forall i | 0 <= i < k :: script[i].Accepted?
    ensures Capacity(script, k) == script[0].n + 1 + Capacity(script[1..], k - 1)
    decreases k
  {
    if k > 1 { CapacityFirst(script, k - 1); }
  }

  /** "s'" has handed over as much of txbuf as fits into "total" bytes, and nothing else. */
  predicate HandedOver(s: Sender, total: nat, s': Sender) {
    && s'.sent + s'.txbuf == s.sent + s.txbuf && |s'.txbuf| == |s.txbuf| - Min(total, |s.txbuf|)
    && s'.useMask == s.useMask
  }

  lemma {:induction false} AcceptHandsOver(s: Sender, n: nat)
    requires s.txbuf != []
    ensures HandedOver(s, n + 1, Accept(s, n))
  {
    var k := Min(n + 1, |s.txbuf|);
    assert s.txbuf == s.txbuf[..k] + s.txbuf[k..];
    Associative(s.sent, s.txbuf[..k], s.txbuf[k..]);
  }

  lemma {:induction false} SendLoopGoesOn(s: Sender, script: seq<Sent>)
    requires s.txbuf != [] && s.socketOpen && script != [] && script[0].Accepted?
    ensures SendLoop(s, script) == SendLoop(Accept(s, script[0].n), script[1..])
  {
  }

  /** The send loop hands over as much of txbuf as the sends before the first failure take; it fails exactly
      when something is left then and a send fails. */
  lemma {:induction false} SendsAll(s: Sender, script: seq<Sent>, k: nat)
    requires s.socketOpen
    requires k <= |script| && (forall i | 0 <= i < k :: script[i].Accepted?) && (k < |script| ==> script[k].SendFailed?)
    ensures var s' := SendLoop(s, script);
            && HandedOver(s, Capacity(script, k), s')
            && if k < |script| && Capacity(script, k) < |s.txbuf| then s'.readyState == CLOSED && !s'.socketOpen && s'.failed
               else s'.readyState == s.readyState && s'.socketOpen && s'.failed == s.failed
    decreases k
  {
    if s.txbuf != [] && k > 0 {
      SendLoopGoesOn(s, script);
      CapacityFirst(script, k);
      AcceptHandsOver(s, script[0].n);
      SendsAll(Accept(s, script[0].n), script[1..], k - 1);
    }
  }

  /** A poll whose calls do not fail: all bytes are received, as many as fit are sent, and a connection that is
      CLOSING with nothing left to send is CLOSED. */
  lemma {:induction false} PollMeans(c: Conn, recvs: seq<Recv>, sends: seq<Sent>)
    requires c.out.readyState != CLOSED && c.out.socketOpen
    requires (forall i | 0 <= i < |recvs| :: recvs[i].Received?) && forall i | 0 <= i < |sends| :: sends[i].Accepted?
    ensures var total, c' := Capacity(sends, |sends|), Poll(c, recvs, sends);
            var done := c.out.readyState == CLOSING && total >= |c.out.txbuf|;
            && c'.rxbuf == c.rxbuf + ReceivedBytes(recvs, |recvs|) && HandedOver(c.out, total, c'.out)
            && c'.out.readyState == (if done then CLOSED else c.out.readyState) && c'.out.socketOpen == !done
            && c'.out.failed == c.out.failed && c'.received == c.received
  {
    ReceivesAll(c, recvs, |recvs|);
    SendsAll(c.out, sends, |sends|);
  }

  /** A receive that fails, or a send that fails before everything is sent, gives up the connection. */
  lemma {:induction false} PollFails(c: Conn, recvs: seq<Recv>, j: nat, sends: seq<Sent>, k: nat)
    requires c.out.readyState != CLOSED && c.out.socketOpen
    requires j <= |recvs| && (forall i | 0 <= i < j :: recvs[i].Received?) && (j < |recvs| ==> recvs[j].RecvFailed?)
    requires k <= |sends| && (forall i | 0 <= i < k :: sends[i].Accepted?) && (k < |sends| ==> sends[k].SendFailed?)
    ensures var out := Poll(c, recvs, sends).out;
            j < |recvs| || (k < |sends| && Capacity(sends, k) < |c.out.txbuf|) ==>
              out.readyState == CLOSED && !out.socketOpen && out.failed
  {
    ReceivesAll(c, recvs, j);
    if j == |recvs| { SendsAll(c.out, sends, k); }
  }

  lemma {:induction false} PollKeeps(useMask: bool, c: Conn, queued: seq<Outgoing>, recvs: seq<Recv>, sends: seq<Sent>)
    requires StreamInv(useMask, c.out, queued)
    ensures var c' := Poll(c, recvs, sends); StreamInv(useMask, c'.out, queued) && Forward(c.out, c'.out)
  {
    if c.out.readyState != CLOSED {
      ReceiveLoopOut(c, recvs);
      var c1 := ReceiveLoop(c, recvs);
      SendLoopKeeps(useMask, c1.out, queued, sends);
    }
  }

  // ---- Dispatching -------------------------------------------------------------------------------

  lemma {:induction false} RoundReplies(c: Conn)
    requires Fits(c.rxbuf) && CodeRound(c).Took?
    ensures var next, reply := CodeRound(c).next, Reply(c.rxbuf);
            next.out == QueueAll(c.out, reply) && CloseLast(reply)
  {
    WholeExactly(c.rxbuf);
    var reply := Reply(c.rxbuf);
    assert reply == [] || (|reply| == 1 && reply[1..] == []);
  }

  /** Every round that is defined keeps the stream, with a length that overflows too. */
  lemma {:induction false} RoundKeeps(useMask: bool, c: Conn, queued: seq<Outgoing>)
    requires StreamInv(useMask, c.out, queued) && Allowed(c, DispatchRound)
    ensures var c' := Step(c, DispatchRound);
            StreamInv(useMask, c'.out, queued + Queued(c, DispatchRound)) && Forward(c.out, c'.out)
  {
    assert queued + [] == queued;
    if CodeRound(c).Took? {
      RoundReplies(c);
      if c.out.readyState == OPEN {
        QueueAllKeeps(useMask, c.out, queued, Reply(c.rxbuf));
      } else {
        QueueAllIdle(c.out, Reply(c.rxbuf));
      }
    }
  }

  // ---- Steps and runs ------------------------------------------------------------------------

  lemma {:induction false} StepKeeps(useMask: bool, c: Conn, queued: seq<Outgoing>, e: Event)
    requires StreamInv(useMask, c.out, queued) && Allowed(c, e)
    ensures StreamInv(useMask, Step(c, e).out, queued + Queued(c, e)) && Forward(c.out, Step(c, e).out)
  {
    if e.PollSocket? {
      PollKeeps(useMask, c, queued, e.recvs, e.sends);
      assert queued + [] == queued;
    } else if e.DispatchRound? {
      RoundKeeps(useMask, c, queued);
    } else if c.out.readyState == OPEN {
      var o := Queued(c, e)[0];
      assert Queued(c, e)[1..] == [];
      assert QueueAll(c.out, [o]) == Queue(c.out, o);
      QueueAllKeeps(useMask, c.out, queued, [o]);
    } else {
      assert queued + [] == queued;
    }
  }

  /** On a connection that is CLOSED nothing is sent, queued or received any more. */
  lemma {:induction false} ClosedIsFinal(c: Conn, e: Event)
    requires c.out.readyState == CLOSED && Allowed(c, e)
    ensures Step(c, e).out == c.out && (!e.DispatchRound? ==> Step(c, e) == c)
  {
    if e.DispatchRound? && CodeRound(c).Took? {
      RoundReplies(c);
      QueueAllIdle(c.out, Reply(c.rxbuf));
    }
  }

  lemma {:induction false} RunKeeps(useMask: bool, c: Conn, queued: seq<Outgoing>, events: seq<Event>)
    requires AllowedRun(c, events) && StreamInv(useMask, c.out, queued)
    ensures StreamInv(useMask, Run(c, events).out, queued + QueuedInRun(c, events))
    ensures Rank(c.out.readyState) <= Rank(Run(c, events).out.readyState)
    decreases events
  {
    if events == [] {
      assert queued + [] == queued;
    } else {
      var e := events[0];
      StepKeeps(useMask, c, queued, e);
      RunKeeps(useMask, Step(c, e), queued + Queued(c, e), events[1..]);
      Associative(queued, Queued(c, e), QueuedInRun(Step(c, e), events[1..]));
    }
  }

  /** After any run of a fresh connection: the bytes sent followed by the transmit buffer are all the
      frames ever queued, they read as whole frames with nothing left over, at most one is a close
      frame and it is the last; and a connection that is CLOSED without a failure sent everything. */
  lemma {:induction false} RunIsWellFormed(useMask: bool, events: seq<Event>)
    requires AllowedRun(Fresh(useMask), events)
    ensures var s := Run(Fresh(useMask), events).out;
            var queued := QueuedInRun(Fresh(useMask), events);
            && s.sent + s.txbuf == EncodeAll(useMask, queued)
            && Frames(s.sent + s.txbuf) == AsFrames(useMask, queued) && Rest(s.sent + s.txbuf) == []
            && CloseLast(queued)
            && (s.readyState == OPEN ==> OutClose !in queued)
            && (s.readyState == CLOSED && !s.failed ==>
                  s.sent == EncodeAll(useMask, queued) && EndsInClose(queued))
  {
    RunKeeps(useMask, Fresh(useMask), [], events);
    assert [] + QueuedInRun(Fresh(useMask), events) == QueuedInRun(Fresh(useMask), events);
    EncodeAllDecodes(useMask, QueuedInRun(Fresh(useMask), events));
  }
}
