/** What the loop of _dispatchBinary does round by round, with the sum of header size and length taken in 64
    bits as Websocket/pushcpp/easywsclient.cpp takes it, and when that is the one-shot reading. */
module WebSocketOverflow {
  import opened Basics
  import opened WebSocketFrames
  import opened WebSocketConnection

  const WORD: nat := 0x1_0000_0000_0000_0000

  predicate HasHeader(rx: seq<byte>) { |rx| >= 2 && |rx| >= HeaderSize(rx) }

  /** "ws.header_size + ws.N", which wraps. */
  function SumInCode(rx: seq<byte>): nat
    requires HasHeader(rx)
  {
    (HeaderSize(rx) + PayloadSize(rx)) % WORD
  }

  /** The test of the code for a whole frame. */
  predicate WholeInCode(rx: seq<byte>) { HasHeader(rx) && |rx| >= SumInCode(rx) }

  /** A length whose sum with the header size does not fit into 64 bits. */
  predicate Overflows(rx: seq<byte>) { HasHeader(rx) && HeaderSize(rx) + PayloadSize(rx) >= WORD }

  /** The sum then wraps to less than the size of the header. */
  lemma {:induction false} OverflowIsSmall(rx: seq<byte>)
    requires HasHeader(rx)
    ensures PayloadSize(rx) < WORD
    ensures SumInCode(rx) == if Overflows(rx) then HeaderSize(rx) + PayloadSize(rx) - WORD else HeaderSize(rx) + PayloadSize(rx)
    ensures Overflows(rx) ==> SumInCode(rx) < HeaderSize(rx) <= 14
  {
    Pow256Values();
    var ext := ExtendedSize(rx[1] % 128);
    BigEndianBound(rx[2..2 + ext]);
  }

  /** The code takes a frame for whole exactly when it is whole or its length overflows. */
  lemma {:induction false} WholeExactly(rx: seq<byte>)
    requires Fits(rx)
    ensures WholeInCode(rx) <==> Complete(rx) || Overflows(rx)
    ensures !(Complete(rx) && Overflows(rx))
    ensures (WholeInCode(rx) <==> Complete(rx)) <==> !Overflows(rx)
  {
    if HasHeader(rx) { OverflowIsSmall(rx); }
  }

  // ---- Rounds ------------------------------------------------------------------------------------------

  /** One round of the loop: it returns, or reads and writes outside of its buffer, or goes on. */
  datatype Round = Wait | Undefined | Took(next: Conn, messages: seq<Message>)

  predicate UsesPayload(opcode: byte) {
    opcode == TEXT_FRAME || opcode == BINARY_FRAME || opcode == CONTINUATION || opcode == PING
  }

  /** A PONG is skipped, and a close or unknown frame closes the connection. */
  function SkipOrClose(c: Conn, opcode: byte): Conn {
    if opcode == PONG then c else c.(out := Queue(c.out, OutClose))
  }

  /** With a length that overflows, the payload is out of bounds; in any case the sum that the code computes
      says how many bytes are erased. */
  function CodeRound(c: Conn): Round
    requires Fits(c.rxbuf)
  {
    WholeExactly(c.rxbuf);
    if !WholeInCode(c.rxbuf) then Wait
    else if !Complete(c.rxbuf) && UsesPayload(c.rxbuf[0] % 16) then Undefined
    else
      var (c1, messages) := if Complete(c.rxbuf) then OnFrame(c, FrameOf(c.rxbuf)) else (SkipOrClose(c, c.rxbuf[0] % 16), []);
      Took(c1.(rxbuf := c.rxbuf[SumInCode(c.rxbuf)..]), messages)
  }

  lemma {:induction false} RoundOfWhole(c: Conn)
    requires Fits(c.rxbuf) && Complete(c.rxbuf)
    ensures CodeRound(c) == Took(TakeFrame(c).0, TakeFrame(c).1)
  {
    WholeExactly(c.rxbuf);
    OverflowIsSmall(c.rxbuf);
  }

  /** Rounds of one call, each going on: the connection between them and the messages of each. */
  predicate IsRun(t: seq<Conn>, m: seq<seq<Message>>) {
    && |t| == |m| + 1
    && (forall i | 0 <= i < |t| :: Fits(t[i].rxbuf))
    && (forall i | 0 <= i < |m| :: CodeRound(t[i]) == Took(t[i + 1], m[i]))
  }

  lemma {:induction false} RunStep(t: seq<Conn>, m: seq<seq<Message>>, i: nat)
    requires IsRun(t, m) && i < |m|
    ensures CodeRound(t[i]) == Took(t[i + 1], m[i]) && |t[i + 1].rxbuf| <= |t[i].rxbuf|
  {
    assert CodeRound(t[i]) == Took(t[i + 1], m[i]);
  }

  lemma {:induction false} FlattenSnoc(m: seq<seq<Message>>, out: seq<Message>)
    ensures Flatten(m + [out]) == Flatten(m) + out
  {
    if m != [] {
      assert (m + [out])[1..] == m[1..] + [out];
      FlattenSnoc(m[1..], out);
    }
  }

  lemma {:induction false} RunSnoc(t: seq<Conn>, m: seq<seq<Message>>, next: Conn, out: seq<Message>)
    requires IsRun(t, m) && CodeRound(t[|m|]) == Took(next, out)
    ensures IsRun(t + [next], m + [out]) && Flatten(m + [out]) == Flatten(m) + out
  {
    FlattenSnoc(m, out);
  }

  /** A call of _dispatchBinary that returns. */
  ghost predicate Gives(c: Conn, c': Conn, messages: seq<Message>)
    requires Fits(c.rxbuf)
  {
    exists t, m ::
      IsRun(t, m) && t[0] == c && t[|m|] == c' && CodeRound(c') == Wait && messages == Flatten(m)
  }

  // ---- One dispatch ------------------------------------------------------------------------------------

  lemma {:induction false} DispatchLeavesRest(c: Conn)
    requires Fits(c.rxbuf)
    ensures Dispatch(c).0.rxbuf == Rest(c.rxbuf) && Fits(Rest(c.rxbuf)) && !Complete(Rest(c.rxbuf))
  {
    DispatchIsOneShot(c);
    RestIsIncomplete(c.rxbuf);
    DispatchShrinks(c);
  }

  lemma {:induction false} RestIsIncomplete(stream: seq<byte>)
    ensures !Complete(Rest(stream)) && |Rest(stream)| <= |stream|
    decreases |stream|
  {
    if Complete(stream) { RestIsIncomplete(stream[FrameSize(stream)..]); }
  }

  lemma {:induction false} RoundTakesFrame(c: Conn)
    requires Fits(c.rxbuf) && !Overflows(Rest(c.rxbuf))
    ensures CodeRound(c) != Undefined && (CodeRound(c) == Wait <==> Frames(c.rxbuf) == [])
    ensures CodeRound(c).Took? ==>
              var left := CodeRound(c).next.rxbuf;
              Rest(left) == Rest(c.rxbuf) && |Frames(left)| == |Frames(c.rxbuf)| - 1
  {
    WholeExactly(c.rxbuf);
    if Complete(c.rxbuf) { RoundOfWhole(c); }
  }

  lemma {:induction false} FramesStep(t: seq<Conn>, m: seq<seq<Message>>, rest: seq<byte>, i: nat)
    requires IsRun(t, m) && i < |m| && Rest(t[i].rxbuf) == rest && !Overflows(rest)
    ensures Rest(t[i + 1].rxbuf) == rest && |Frames(t[i + 1].rxbuf)| == |Frames(t[i].rxbuf)| - 1
  {
    RunStep(t, m, i);
    RoundTakesFrame(t[i]);
  }

  lemma {:induction false} FramesLeft(t: seq<Conn>, m: seq<seq<Message>>, rest: seq<byte>, i: nat)
    requires IsRun(t, m) && i <= |m| && Rest(t[0].rxbuf) == rest && !Overflows(rest)
    ensures Rest(t[i].rxbuf) == rest && |Frames(t[i].rxbuf)| == |Frames(t[0].rxbuf)| - i
  {
    if i > 0 {
      FramesLeft(t, m, rest, i - 1);
      FramesStep(t, m, rest, i - 1);
    }
  }

  /** Without an overflow behind the last whole frame, every round takes one frame until none is left ... */
  lemma {:induction false} RunTakesFrames(t: seq<Conn>, m: seq<seq<Message>>, i: nat)
    requires IsRun(t, m) && i <= |m| && !Overflows(Rest(t[0].rxbuf))
    ensures i <= |Frames(t[0].rxbuf)|
    ensures CodeRound(t[i]) != Undefined && (CodeRound(t[i]) == Wait <==> i == |Frames(t[0].rxbuf)|)
  {
    FramesLeft(t, m, Rest(t[0].rxbuf), i);
    RoundTakesFrame(t[i]);
  }

  lemma {:induction false} DispatchRuns(c: Conn) returns (t: seq<Conn>, m: seq<seq<Message>>)
    requires Fits(c.rxbuf) && !Overflows(Rest(c.rxbuf))
    ensures IsRun(t, m) && t[0] == c && CodeRound(t[|m|]) == Wait
    decreases |c.rxbuf|
  {
    WholeExactly(c.rxbuf);
    if Complete(c.rxbuf) {
      RoundOfWhole(c);
      var t', m' := DispatchRuns(TakeFrame(c).0);
      t, m := [c] + t', [TakeFrame(c).1] + m';
    } else {
      t, m := [c], [];
    }
  }

  /** ... and the loop ends with what the dispatch function says. */
  lemma {:induction false} RunIsDispatch(t: seq<Conn>, m: seq<seq<Message>>, i: nat)
    requires IsRun(t, m) && i <= |m| && CodeRound(t[|m|]) == Wait && !Overflows(Rest(t[i].rxbuf))
    ensures Dispatch(t[i]) == (t[|m|], Flatten(m[i..]))
    decreases |m| - i
  {
    WholeExactly(t[i].rxbuf);
    if i < |m| {
      RunStep(t, m, i);
      RoundOfWhole(t[i]);
      RunIsDispatch(t, m, i + 1);
    }
  }

  lemma {:induction false} RunShrinks(t: seq<Conn>, m: seq<seq<Message>>, i: nat)
    requires IsRun(t, m) && i <= |m|
    ensures |t[i].rxbuf| <= |t[0].rxbuf|
  {
    if i > 0 {
      RunStep(t, m, i - 1);
      RunShrinks(t, m, i - 1);
    }
  }

  lemma {:induction false} RunEnds(t: seq<Conn>, m: seq<seq<Message>>)
    requires IsRun(t, m) && !Overflows(Rest(t[0].rxbuf))
    ensures |m| <= |Frames(t[0].rxbuf)| && CodeRound(t[|m|]) != Undefined
    ensures CodeRound(t[|m|]) == Wait ==> Dispatch(t[0]) == (t[|m|], Flatten(m))
  {
    RunTakesFrames(t, m, |m|);
    if CodeRound(t[|m|]) == Wait {
      RunIsDispatch(t, m, 0);
      assert m[0..] == m;
    }
  }

  /** In front of an overflow a round takes the next whole frame; at one, it erases the wrapped sum. */
  lemma {:induction false} OverflowRound(c: Conn)
    requires Fits(c.rxbuf) && Overflows(Rest(c.rxbuf)) && CodeRound(c) != Undefined
    ensures CodeRound(c).Took? && Fits(CodeRound(c).next.rxbuf)
    ensures var left := CodeRound(c).next.rxbuf;
            Rest(left) == Rest(c.rxbuf) || |left| < |Rest(c.rxbuf)|
  {
    WholeExactly(c.rxbuf);
    if Complete(c.rxbuf) { RoundOfWhole(c); }
  }

  lemma {:induction false} OverflowStep(t: seq<Conn>, m: seq<seq<Message>>, rest: seq<byte>, i: nat)
    requires IsRun(t, m) && i < |m| && Overflows(rest) && (Rest(t[i].rxbuf) == rest || |t[i].rxbuf| < |rest|)
    ensures Rest(t[i + 1].rxbuf) == rest || |t[i + 1].rxbuf| < |rest|
  {
    RunStep(t, m, i);
    if Rest(t[i].rxbuf) == rest { OverflowRound(t[i]); }
  }

  /** With one, the loop never gets further than that without losing bytes. */
  lemma {:induction false} OverflowLosesBytes(t: seq<Conn>, m: seq<seq<Message>>, rest: seq<byte>, i: nat)
    requires IsRun(t, m) && i <= |m| && Rest(t[0].rxbuf) == rest && Overflows(rest)
    ensures Rest(t[i].rxbuf) == rest || |t[i].rxbuf| < |rest|
  {
    if i > 0 {
      OverflowLosesBytes(t, m, rest, i - 1);
      OverflowStep(t, m, rest, i - 1);
    }
  }

  /** So it ends, if it does, with fewer bytes than are behind the last whole frame. */
  lemma {:induction false} OverflowEnds(t: seq<Conn>, m: seq<seq<Message>>)
    requires IsRun(t, m) && Overflows(Rest(t[0].rxbuf)) && CodeRound(t[|m|]) == Wait
    ensures |t[|m|].rxbuf| < |Rest(t[0].rxbuf)|
  {
    OverflowLosesBytes(t, m, Rest(t[0].rxbuf), |m|);
    if Rest(t[|m|].rxbuf) == Rest(t[0].rxbuf) { OverflowRound(t[|m|]); }
  }

  /** A call of _dispatchBinary returns with the one-shot reading exactly when no length overflows in the
      header behind the last whole frame. */
  lemma {:induction false} DispatchInCode(c: Conn)
    requires Fits(c.rxbuf)
    ensures Gives(c, OneShot(c).0, OneShot(c).1) <==> !Overflows(Rest(c.rxbuf))
  {
    DispatchIsOneShot(c);
    DispatchLeavesRest(c);
    if !Overflows(Rest(c.rxbuf)) {
      var t, m := DispatchRuns(c);
      RunIsDispatch(t, m, 0);
      assert m[0..] == m;
    } else if Gives(c, OneShot(c).0, OneShot(c).1) {
      var t, m :| IsRun(t, m) && t[0] == c && t[|m|] == OneShot(c).0 && CodeRound(t[|m|]) == Wait;
      OverflowEnds(t, m);
    }
  }

  // ---- Any way of cutting the stream ---------------------------------------------------------------------

  /** Chunks arrive, and every call of _dispatchBinary between them returns. */
  ghost predicate Feeds(c: Conn, chunks: seq<seq<byte>>, c': Conn, messages: seq<Message>)
    requires Fits(c.rxbuf + Flatten(chunks))
    decreases chunks
  {
    if chunks == [] then c' == c && messages == []
    else
      exists c1: Conn, m1, m2 ::
        && Gives(c.(rxbuf := c.rxbuf + chunks[0]), c1, m1) && messages == m1 + m2
        && Fits(c1.rxbuf + Flatten(chunks[1..])) && Feeds(c1, chunks[1..], c', m2)
  }

  /** A header that overflows stays one, whatever follows. */
  lemma {:induction false} OverflowStays(rx: seq<byte>, more: seq<byte>)
    requires HasHeader(rx)
    ensures HasHeader(rx + more) && HeaderSize(rx + more) == HeaderSize(rx) && PayloadSize(rx + more) == PayloadSize(rx)
    ensures Overflows(rx + more) <==> Overflows(rx)
  {
    var all, ext := rx + more, ExtendedSize(rx[1] % 128);
    assert HeaderSize(all) == HeaderSize(rx);
    assert all[2..2 + ext] == rx[2..2 + ext];
  }

  /** It is never a whole frame in a stream that fits into memory. */
  lemma {:induction false} OverflowEndsFrames(rx: seq<byte>, more: seq<byte>)
    requires Overflows(rx) && Fits(rx + more)
    ensures !Complete(rx + more) && Rest(rx + more) == rx + more && Overflows(Rest(rx + more))
  {
    OverflowStays(rx, more);
    WholeExactly(rx + more);
  }

  /** Dispatching a first part leaves the same header in front as dispatching everything. */
  lemma {:induction false} RestInParts(a: seq<byte>, b: seq<byte>)
    requires Fits(a + b)
    ensures Rest(a + b) == Rest(Rest(a) + b) && |Rest(a)| <= |a|
    ensures Overflows(Rest(a)) ==> Rest(a + b) == Rest(a) + b && Overflows(Rest(a + b))
  {
    FramesOfConcatenation(a, b);
    RestIsIncomplete(a);
    if Overflows(Rest(a)) { OverflowEndsFrames(Rest(a), b); }
  }

  lemma {:induction false} CutOff(a: seq<byte>, chunks: seq<seq<byte>>)
    requires chunks != []
    ensures a + Flatten(chunks) == (a + chunks[0]) + Flatten(chunks[1..])
  {
    Associative(a, chunks[0], Flatten(chunks[1..]));
  }

  lemma {:induction false} FeedsWithout(c: Conn, chunks: seq<seq<byte>>)
    requires Fits(c.rxbuf + Flatten(chunks)) && !Overflows(Rest(c.rxbuf + Flatten(chunks)))
    ensures Feeds(c, chunks, FeedAll(c, chunks).0, FeedAll(c, chunks).1)
    decreases chunks
  {
    if chunks != [] {
      var c0, rest := c.(rxbuf := c.rxbuf + chunks[0]), Flatten(chunks[1..]);
      CutOff(c.rxbuf, chunks);
      RestInParts(c0.rxbuf, rest);
      DispatchLeavesRest(c0);
      DispatchIsOneShot(c0);
      DispatchInCode(c0);
      FeedsWithout(Dispatch(c0).0, chunks[1..]);
    }
  }

  lemma {:induction false} FeedsShrink(c: Conn, chunks: seq<seq<byte>>, c': Conn, messages: seq<Message>)
    requires Fits(c.rxbuf + Flatten(chunks)) && Feeds(c, chunks, c', messages)
    ensures |c'.rxbuf| <= |c.rxbuf| + |Flatten(chunks)|
    decreases chunks
  {
    if chunks != [] {
      var c0 := c.(rxbuf := c.rxbuf + chunks[0]);
      var c1: Conn, m1, m2 :|
        && Gives(c0, c1, m1) && messages == m1 + m2
        && Fits(c1.rxbuf + Flatten(chunks[1..])) && Feeds(c1, chunks[1..], c', m2);
      var t, m :| IsRun(t, m) && t[0] == c0 && t[|m|] == c1;
      RunShrinks(t, m, |m|);
      FeedsShrink(c1, chunks[1..], c', m2);
    }
  }

  lemma {:induction false} NotTheLast(a: seq<byte>, chunks: seq<seq<byte>>)
    requires Overflows(Rest(a + Flatten(chunks))) && !Overflows(Rest(a))
    ensures chunks != []
  {
    assert a + [] == a;
  }

  lemma {:induction false} FeedsLose(c: Conn, chunks: seq<seq<byte>>, c': Conn, messages: seq<Message>)
    requires chunks != [] && Fits(c.rxbuf + Flatten(chunks)) && Overflows(Rest(c.rxbuf + Flatten(chunks)))
    requires Feeds(c, chunks, c', messages)
    ensures |c'.rxbuf| < |Rest(c.rxbuf + Flatten(chunks))|
    decreases chunks
  {
    var c0, rest := c.(rxbuf := c.rxbuf + chunks[0]), Flatten(chunks[1..]);
    CutOff(c.rxbuf, chunks);
    RestInParts(c0.rxbuf, rest);
    var c1: Conn, m1, m2 :|
      && Gives(c0, c1, m1) && messages == m1 + m2
      && Fits(c1.rxbuf + rest) && Feeds(c1, chunks[1..], c', m2);
    var t, m :| IsRun(t, m) && t[0] == c0 && t[|m|] == c1 && CodeRound(c1) == Wait;
    if Overflows(Rest(c0.rxbuf)) {
      OverflowEnds(t, m);
      FeedsShrink(c1, chunks[1..], c', m2);
    } else {
      RunIsDispatch(t, m, 0);
      DispatchLeavesRest(c0);
      NotTheLast(c0.rxbuf, chunks[1..]);
      FeedsLose(c1, chunks[1..], c', m2);
    }
  }

  /** However a stream is cut into chunks, with a call of _dispatchBinary after each, all calls return with
      the messages and the connection of the one-shot reading exactly when no length overflows in the header
      behind the last whole frame of the stream. */
  lemma {:induction false} ChunkingInCode(c: Conn, chunks: seq<seq<byte>>)
    requires chunks != [] && Fits(c.rxbuf + Flatten(chunks))
    ensures var (c', messages) := OneShot(c.(rxbuf := c.rxbuf + Flatten(chunks)));
            Feeds(c, chunks, c', messages) <==> !Overflows(Rest(c.rxbuf + Flatten(chunks)))
  {
    ChunkingIsIrrelevant(c, chunks);
    var (c', messages) := OneShot(c.(rxbuf := c.rxbuf + Flatten(chunks)));
    if !Overflows(Rest(c.rxbuf + Flatten(chunks))) {
      FeedsWithout(c, chunks);
    } else if Feeds(c, chunks, c', messages) {
      FeedsLose(c, chunks, c', messages);
    }
  }

  // ---- What an overflow does -----------------------------------------------------------------------------

  lemma {:induction false} NothingIsErased(c: Conn)
    requires Fits(c.rxbuf) && Overflows(c.rxbuf) && SumInCode(c.rxbuf) == 0 && !UsesPayload(c.rxbuf[0] % 16)
    ensures CodeRound(c).Took? && CodeRound(c).next.rxbuf == c.rxbuf
  {
    WholeExactly(c.rxbuf);
    assert c.rxbuf[0..] == c.rxbuf;
  }

  /** When the sum wraps to zero nothing is erased, and every round is followed by another. */
  lemma {:induction false} LoopsForEver(t: seq<Conn>, m: seq<seq<Message>>, i: nat)
    requires IsRun(t, m) && i <= |m|
    requires Overflows(t[0].rxbuf) && SumInCode(t[0].rxbuf) == 0 && !UsesPayload(t[0].rxbuf[0] % 16)
    ensures t[i].rxbuf == t[0].rxbuf && CodeRound(t[i]).Took?
  {
    if i > 0 {
      LoopsForEver(t, m, i - 1);
      NothingIsErased(t[i - 1]);
      RunStep(t, m, i - 1);
    }
    NothingIsErased(t[i]);
  }

  /** Ten bytes: a PONG whose length is 2^64 - 10, or 2^64 - 1. */
  function LongPong(last: byte): seq<byte> { [0x8A, 0x7F, 0xFF, 0xFF, 0xFF, 0xFF, 0xFF, 0xFF, 0xFF, last] }

  lemma {:induction false} LongPongSize(last: byte)
    ensures var rx := LongPong(last);
            HasHeader(rx) && HeaderSize(rx) == 10 && PayloadSize(rx) == WORD - 256 + last
  {
    var s := LongPong(last)[2..10];
    Snoc(s, 7);
    Snoc(s, 6);
    Snoc(s, 5);
    Snoc(s, 4);
    Snoc(s, 3);
    Snoc(s, 2);
    Snoc(s, 1);
    Snoc(s, 0);
  }

  lemma {:induction false} Snoc(s: seq<byte>, k: nat)
    requires k < |s|
    ensures FromBigEndian(s[..k + 1]) == FromBigEndian(s[..k]) * 256 + s[k]
    ensures s[..0] == [] && s[..|s|] == s
  {
    assert s[..k + 1][..k] == s[..k];
  }

  /** A PONG with such a length is skipped, by as many bytes as the wrapped sum says. */
  lemma {:induction false} PongIsSkipped(c: Conn)
    requires Fits(c.rxbuf) && Overflows(c.rxbuf) && c.rxbuf[0] % 16 == PONG
    ensures SumInCode(c.rxbuf) <= |c.rxbuf|
    ensures CodeRound(c) == Took(c.(rxbuf := c.rxbuf[SumInCode(c.rxbuf)..]), [])
  {
    WholeExactly(c.rxbuf);
  }

  /** Where the one-shot reading waits for more bytes. */
  lemma {:induction false} OverflowWaits(c: Conn)
    requires Fits(c.rxbuf) && Overflows(c.rxbuf)
    ensures OneShot(c) == (c, [])
  {
    WholeExactly(c.rxbuf);
    DispatchIsOneShot(c);
  }

  lemma {:induction false} LongPongOverflows(last: byte)
    requires last >= 0xF6
    ensures var rx := LongPong(last);
            Fits(rx) && Overflows(rx) && rx[0] % 16 == PONG && SumInCode(rx) == last - 0xF6
  {
    LongPongSize(last);
  }

  /** On the first nothing is erased, again and again; on the second, nine of the ten bytes are.  The one-shot
      reading waits for more bytes in both cases. */
  lemma {:induction false} OverflowExample(c: Conn, last: byte)
    requires last in {0xF6, 0xFF} && c.rxbuf == LongPong(last)
    ensures CodeRound(c) == Took(if last == 0xF6 then c else c.(rxbuf := [0xFF]), []) && OneShot(c) == (c, [])
  {
    var rx := c.rxbuf;
    LongPongOverflows(last);
    assert rx[0..] == rx && rx[9..] == [last];
    PongIsSkipped(c);
    OverflowWaits(c);
  }
}
