/** The connection of Websocket/pushcpp/easywsclient.cpp: what each call does to the buffers, and
    what that means for whole streams and whole runs.  */
module WebSocketConnection {
  import opened Basics
  import opened WebSocketFrames

  datatype ReadyState = OPEN | CLOSING | CLOSED

  /** The sending side.  The socket is reduced to whether it is still open, whether it has failed
      (an error, or closed by the peer), and the bytes it has accepted. */
  datatype Sender = Sender(
    useMask: bool, txbuf: seq<byte>, readyState: ReadyState,
    socketOpen: bool, failed: bool, sent: seq<byte>)

  datatype Conn = Conn(rxbuf: seq<byte>, received: seq<byte>, out: Sender)

  type Message = seq<byte>

  function Flatten<T>(ss: seq<seq<T>>): seq<T> {
    if ss == [] then [] else ss[0] + Flatten(ss[1..])
  }

  // ---- What each call does --------------------------------------------------------------

  /** sendData and close: nothing is queued unless the connection is OPEN. */
  function Queue(s: Sender, o: Outgoing): Sender {
    if s.readyState != OPEN then s
    else s.(txbuf := s.txbuf + EncodeOut(s.useMask, o), readyState := if o == OutClose then CLOSING else OPEN)
  }

  function QueueAll(s: Sender, outs: seq<Outgoing>): Sender
    decreases outs
  {
    if outs == [] then s else QueueAll(Queue(s, outs[0]), outs[1..])
  }

  predicate IsData(f: Frame) { f.opcode == TEXT_FRAME || f.opcode == BINARY_FRAME || f.opcode == CONTINUATION }
  predicate IsClosing(f: Frame) { !IsData(f) && f.opcode != PING && f.opcode != PONG }

  /** A buffer in memory is far below the largest length the format can carry. */
  predicate Fits(stream: seq<byte>) { |stream| < MAX_LENGTH }

  function OnFrame(c: Conn, f: Frame): (Conn, seq<Message>)
    requires |f.payload| < MAX_LENGTH
  {
    if IsData(f) then
      var received := c.received + f.payload;
      if f.fin then (c.(received := []), [received]) else (c.(received := received), [])
    else if f.opcode == PING then (c.(out := Queue(c.out, Out(PONG, f.payload))), [])
    else if f.opcode == PONG then (c, [])
    else (c.(out := Queue(c.out, OutClose)), [])
  }

  /** Handle the frame at the front of the buffer and erase it. */
  function TakeFrame(c: Conn): (r: (Conn, seq<Message>))
    requires Fits(c.rxbuf) && Complete(c.rxbuf)
    ensures r.0.rxbuf == c.rxbuf[FrameSize(c.rxbuf)..]
  {
    var (c1, out) := OnFrame(c, FrameOf(c.rxbuf));
    (c1.(rxbuf := c.rxbuf[FrameSize(c.rxbuf)..]), out)
  }

  /** _dispatchBinary: the new connection and the messages handed to the callback. */
  function Dispatch(c: Conn): (Conn, seq<Message>)
    requires Fits(c.rxbuf)
    decreases |c.rxbuf|
  {
    if Complete(c.rxbuf) then
      var (c1, out) := TakeFrame(c);
      var (c2, more) := Dispatch(c1);
      (c2, out + more)
    else (c, [])
  }

  // ---- The one-shot reading of a stream ---------------------------------------------------

  function DataFrames(fs: seq<Frame>): seq<Frame> {
    if fs == [] then [] else if IsData(fs[0]) then [fs[0]] + DataFrames(fs[1..]) else DataFrames(fs[1..])
  }

  /** Data frames joined up to each FIN, "partial" being what is already there (section 5.4). */
  function Joined(partial: Message, ds: seq<Frame>): seq<Message>
    decreases ds
  {
    if ds == [] then []
    else if ds[0].fin then [partial + ds[0].payload] + Joined([], ds[1..])
    else Joined(partial + ds[0].payload, ds[1..])
  }

  function Unfinished(partial: Message, ds: seq<Frame>): Message
    decreases ds
  {
    if ds == [] then partial
    else Unfinished(if ds[0].fin then [] else partial + ds[0].payload, ds[1..])
  }

  predicate SmallPayloads(fs: seq<Frame>) {
    forall f | f in fs :: |f.payload| < MAX_LENGTH
  }

  predicate Closes(fs: seq<Frame>) {
    exists i :: 0 <= i < |fs| && IsClosing(fs[i])
  }

  /** The frames before the first one that closes the connection. */
  function BeforeClose(fs: seq<Frame>): (before: seq<Frame>)
    ensures before <= fs
  {
    if fs == [] || IsClosing(fs[0]) then [] else [fs[0]] + BeforeClose(fs[1..])
  }

  /** One PONG with the same payload for every PING (section 5.5.3). */
  function Pongs(fs: seq<Frame>): seq<Outgoing>
    requires SmallPayloads(fs)
  {
    if fs == [] then []
    else if fs[0].opcode == PING then [Out(PONG, fs[0].payload)] + Pongs(fs[1..]) else Pongs(fs[1..])
  }

  /** What an OPEN connection answers: PONGs up to the first closing frame, then one close frame. */
  function Answers(fs: seq<Frame>): seq<Outgoing>
    requires SmallPayloads(fs)
  {
    Pongs(BeforeClose(fs)) + if Closes(fs) then [OutClose] else []
  }

  /** The effect of a list of frames that leaves "rest" in the buffer. */
  function OfFrames(c: Conn, fs: seq<Frame>, rest: seq<byte>): (Conn, seq<Message>)
    requires SmallPayloads(fs)
  {
    var ds := DataFrames(fs);
    (Conn(rest, Unfinished(c.received, ds), QueueAll(c.out, Answers(fs))), Joined(c.received, ds))
  }

  function OneShot(c: Conn): (Conn, seq<Message>)
    requires Fits(c.rxbuf)
  {
    FramesFit(c.rxbuf);
    OfFrames(c, Frames(c.rxbuf), Rest(c.rxbuf))
  }

  lemma {:induction false} FramesFit(stream: seq<byte>)
    requires Fits(stream)
    ensures SmallPayloads(Frames(stream))
    decreases |stream|
  {
    if Complete(stream) {
      FramesFit(stream[FrameSize(stream)..]);
    }
  }

  lemma {:induction false} ClosesCons(f: Frame, fs: seq<Frame>)
    ensures Closes([f] + fs) <==> IsClosing(f) || Closes(fs)
  {
    var all := [f] + fs;
    if Closes(fs) {
      var i :| 0 <= i < |fs| && IsClosing(fs[i]);
      assert all[i + 1] == fs[i];
    }
    if IsClosing(f) { assert all[0] == f; }
  }

  lemma {:induction false} DataFramesCons(f: Frame, fs: seq<Frame>)
    ensures DataFrames([f] + fs) == if IsData(f) then [f] + DataFrames(fs) else DataFrames(fs)
  {
    assert ([f] + fs)[1..] == fs;
  }

  lemma {:induction false} AnswersCons(f: Frame, fs: seq<Frame>)
    requires SmallPayloads([f] + fs) && SmallPayloads(fs)
    ensures Answers([f] + fs) ==
            if IsClosing(f) then [OutClose]
            else if f.opcode == PING then [Out(PONG, f.payload)] + Answers(fs) else Answers(fs)
  {
    ClosesCons(f, fs);
    assert ([f] + fs)[1..] == fs;
    if !IsClosing(f) {
      var before := BeforeClose([f] + fs);
      assert before == [f] + BeforeClose(fs) && before[1..] == BeforeClose(fs);
    }
  }

  lemma {:induction false} OfFramesCons(c: Conn, f: Frame, fs: seq<Frame>, rest: seq<byte>)
    requires SmallPayloads([f] + fs) && SmallPayloads(fs) && |f.payload| < MAX_LENGTH
    ensures var (c1, out) := OnFrame(c, f);
            var (c2, more) := OfFrames(c1, fs, rest);
            OfFrames(c, [f] + fs, rest) == (c2, out + more)
  {
    DataFramesCons(f, fs);
    AnswersCons(f, fs);
    var ds := DataFrames(fs);
    if IsData(f) {
      assert ([f] + ds)[1..] == ds;
      assert Joined(c.received, [f] + ds) == OnFrame(c, f).1 + Joined(OnFrame(c, f).0.received, ds);
    } else {
      assert [] + Joined(c.received, ds) == Joined(c.received, ds);
      if f.opcode == PING {
        assert ([Out(PONG, f.payload)] + Answers(fs))[1..] == Answers(fs);
      } else if f.opcode != PONG {
        var close: seq<Outgoing> := [OutClose];
        assert close[1..] == [];
        QueueAllIdle(Queue(c.out, OutClose), Answers(fs));
      }
    }
  }

  lemma {:induction false} QueueAllIdle(s: Sender, outs: seq<Outgoing>)
    requires s.readyState != OPEN
    ensures QueueAll(s, outs) == s
    decreases outs
  {
    if outs != [] { QueueAllIdle(s, outs[1..]); }
  }

  /** Handling frame after frame as they come amounts to the one-shot reading. */
  lemma {:induction false} DispatchIsOneShot(c: Conn)
    requires Fits(c.rxbuf)
    ensures Dispatch(c) == OneShot(c)
    decreases |c.rxbuf|
  {
    FramesFit(c.rxbuf);
    if Complete(c.rxbuf) {
      var f := FrameOf(c.rxbuf);
      var rest := c.rxbuf[FrameSize(c.rxbuf)..];
      FramesFit(rest);
      DispatchIsOneShot(TakeFrame(c).0);
      OfFramesCons(c, f, Frames(rest), Rest(rest));
    }
  }

  /** No byte of a data frame is lost, added or moved: the messages, followed by what is still
      unfinished, are the payloads in order, and there is one message for every FIN. */
  lemma {:induction false} JoinedConserves(partial: Message, ds: seq<Frame>)
    ensures Flatten(Joined(partial, ds)) + Unfinished(partial, ds) == partial + Payloads(ds)
    ensures |Joined(partial, ds)| == Fins(ds)
    decreases ds
  {
    if ds != [] {
      var p := ds[0].payload;
      if ds[0].fin {
        JoinedConserves([], ds[1..]);
        assert Joined(partial, ds)[1..] == Joined([], ds[1..]);
        assert (partial + p) + Flatten(Joined([], ds[1..])) + Unfinished([], ds[1..])
            == (partial + p) + (Flatten(Joined([], ds[1..])) + Unfinished([], ds[1..]));
      } else {
        JoinedConserves(partial + p, ds[1..]);
      }
      assert (partial + p) + Payloads(ds[1..]) == partial + (p + Payloads(ds[1..]));
    }
  }

  function Payloads(ds: seq<Frame>): seq<byte> {
    if ds == [] then [] else ds[0].payload + Payloads(ds[1..])
  }

  function Fins(ds: seq<Frame>): nat {
    if ds == [] then 0 else (if ds[0].fin then 1 else 0) + Fins(ds[1..])
  }

  // ---- Any way of cutting the stream ---------------------------------------------------------

  /** A chunk arrives and is dispatched. */
  function Feed(c: Conn, chunk: seq<byte>): (Conn, seq<Message>)
    requires Fits(c.rxbuf + chunk)
  {
    Dispatch(c.(rxbuf := c.rxbuf + chunk))
  }

  lemma {:induction false} DispatchShrinks(c: Conn)
    requires Fits(c.rxbuf)
    ensures |Dispatch(c).0.rxbuf| <= |c.rxbuf|
    decreases |c.rxbuf|
  {
    if Complete(c.rxbuf) {
      DispatchShrinks(TakeFrame(c).0);
    }
  }

  function FeedAll(c: Conn, chunks: seq<seq<byte>>): (Conn, seq<Message>)
    requires Fits(c.rxbuf + Flatten(chunks))
    decreases chunks
  {
    if chunks == [] then (c, [])
    else
      DispatchShrinks(c.(rxbuf := c.rxbuf + chunks[0]));
      var (c1, out) := Feed(c, chunks[0]);
      var (c2, more) := FeedAll(c1, chunks[1..]);
      (c2, out + more)
  }

  lemma {:induction false} TakeFrameEarly(c: Conn, more: seq<byte>)
    requires Fits(c.rxbuf + more) && Complete(c.rxbuf)
    ensures Complete(c.rxbuf + more)
    ensures var (next, out) := TakeFrame(c);
            TakeFrame(c.(rxbuf := c.rxbuf + more)) == (next.(rxbuf := next.rxbuf + more), out)
  {
    FrameIsStable(c.rxbuf, more);
    var n := FrameSize(c.rxbuf);
    assert (c.rxbuf + more)[n..] == c.rxbuf[n..] + more;
  }

  /** Dispatching early, in the middle of a stream, changes nothing. */
  lemma {:induction false} DispatchEarly(c: Conn, more: seq<byte>)
    requires Fits(c.rxbuf + more)
    ensures var (c1, out1) := Dispatch(c);
            Fits(c1.rxbuf + more) &&
            var (c2, out2) := Dispatch(c1.(rxbuf := c1.rxbuf + more));
            Dispatch(c.(rxbuf := c.rxbuf + more)) == (c2, out1 + out2)
    decreases |c.rxbuf|
  {
    DispatchShrinks(c);
    if Complete(c.rxbuf) {
      var (next, out) := TakeFrame(c);
      TakeFrameEarly(c, more);
      DispatchShrinks(next);
      DispatchEarly(next, more);
      var out1 := Dispatch(next).1;
      var out2 := Dispatch(Dispatch(next).0.(rxbuf := Dispatch(next).0.rxbuf + more)).1;
      Associative(out, out1, out2);
    } else {
      var all := Dispatch(c.(rxbuf := c.rxbuf + more)).1;
      assert [] + all == all;
    }
  }

  /** However a stream is cut into chunks, with a dispatch after each chunk, the messages and the
      final connection are those of the one-shot reading of the whole stream. */
  lemma {:induction false} ChunkingIsIrrelevant(c: Conn, chunks: seq<seq<byte>>)
    requires chunks != [] && Fits(c.rxbuf + Flatten(chunks))
    ensures FeedAll(c, chunks) == OneShot(c.(rxbuf := c.rxbuf + Flatten(chunks)))
    decreases chunks
  {
    var c' := c.(rxbuf := c.rxbuf + chunks[0]);
    var rest := Flatten(chunks[1..]);
    assert c.rxbuf + Flatten(chunks) == c'.rxbuf + rest;
    DispatchIsOneShot(c.(rxbuf := c.rxbuf + Flatten(chunks)));
    DispatchEarly(c', rest);
    var c1 := Dispatch(c').0;
    if |chunks| == 1 {
      assert c1.rxbuf + rest == c1.rxbuf;
      DispatchAgain(c');
    } else {
      ChunkingIsIrrelevant(c1, chunks[1..]);
      DispatchIsOneShot(c1.(rxbuf := c1.rxbuf + rest));
    }
  }

  /** A second dispatch without new bytes finds nothing. */
  lemma {:induction false} DispatchAgain(c: Conn)
    requires Fits(c.rxbuf)
    ensures var c1 := Dispatch(c).0; Fits(c1.rxbuf) && Dispatch(c1) == (c1, [])
    decreases |c.rxbuf|
  {
    if Complete(c.rxbuf) {
      DispatchAgain(TakeFrame(c).0);
    }
  }

  // ---- Sending and receiving -------------------------------------------------------------------

  /** A list of data and control frames, ended at the first close, as bytes. */
  lemma {:induction false} QueueAllBytes(s: Sender, outs: seq<Outgoing>)
    requires s.readyState == OPEN && OutClose !in outs
    ensures QueueAll(s, outs) == s.(txbuf := s.txbuf + EncodeAll(s.useMask, outs))
    decreases outs
  {
    if outs != [] {
      assert outs[0] in outs;
      var s1 := Queue(s, outs[0]);
      QueueAllBytes(s1, outs[1..]);
      Associative(s.txbuf, EncodeOut(s.useMask, outs[0]), EncodeAll(s.useMask, outs[1..]));
    }
  }

  predicate IsMessage(o: OutFrame) {
    o.Out? && (o.opcode == TEXT_FRAME || o.opcode == BINARY_FRAME)
  }

  predicate AllMessages(outs: seq<Outgoing>) {
    forall i | 0 <= i < |outs| :: IsMessage(outs[i])
  }

  function MessagesOf(outs: seq<Outgoing>): seq<Message>
    requires AllMessages(outs)
  {
    seq(|outs|, i requires 0 <= i < |outs| && IsMessage(outs[i]) => outs[i].payload)
  }

  lemma {:induction false} JoinedMessages(mask: bool, outs: seq<Outgoing>)
    requires AllMessages(outs)
    ensures var fs := AsFrames(mask, outs);
            && DataFrames(fs) == fs && Joined([], fs) == MessagesOf(outs) && Unfinished([], fs) == []
            && (SmallPayloads(fs) ==> Answers(fs) == [])
    decreases outs
  {
    if outs != [] {
      assert AllMessages(outs[1..]) && IsMessage(outs[0]);
      JoinedMessages(mask, outs[1..]);
      var f, fs := AsFrame(mask, outs[0]), AsFrames(mask, outs[1..]);
      DataFramesCons(f, fs);
      assert ([f] + fs)[1..] == fs;
      assert [] + f.payload == f.payload;
      assert MessagesOf(outs) == [f.payload] + MessagesOf(outs[1..]);
      if SmallPayloads([f] + fs) {
        assert forall g | g in fs :: g in [f] + fs;
        AnswersCons(f, fs);
      }
    }
  }

  /** What one side sends, the other side delivers: the same messages in the same order, nothing
      left over and nothing queued in return, masked or not. */
  lemma {:induction false} SendThenDispatch(sender: Sender, receiver: Conn, outs: seq<Outgoing>)
    requires sender.readyState == OPEN && sender.txbuf == []
    requires receiver.rxbuf == [] && receiver.received == []
    requires AllMessages(outs) && Fits(EncodeAll(sender.useMask, outs))
    ensures var wire := QueueAll(sender, outs).txbuf;
            Fits(wire) && Dispatch(receiver.(rxbuf := wire)) == (receiver, MessagesOf(outs))
  {
    QueueAllBytes(sender, outs);
    var wire := EncodeAll(sender.useMask, outs);
    assert [] + wire == wire;
    DispatchIsOneShot(receiver.(rxbuf := wire));
    FramesFit(wire);
    EncodeAllDecodes(sender.useMask, outs);
    JoinedMessages(sender.useMask, outs);
  }
}
