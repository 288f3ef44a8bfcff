/** Frames as section 5.2 of RFC 6455 lays them out, byte by byte, and what the connection of
    Websocket/pushcpp/easywsclient.cpp makes of them. */
module WebSocketBytes {
  import opened Basics
  import opened Modular
  import opened WebSocketFrames
  import opened WebSocketConnection
  import opened WebSocketOverflow

  // ---- Exclusive or ------------------------------------------------------------------------------------

  /** A bit is set exactly when the two bits it comes from differ. */
  lemma {:induction false} XorBitsAt(a: nat, b: nat, bits: nat, k: nat)
    requires k < bits
    ensures Pow2(k) > 0
    ensures XorBits(a, b, bits) / Pow2(k) % 2 == 1 <==> a / Pow2(k) % 2 != b / Pow2(k) % 2
  {
    Pow2Positive(k);
    var low, high := (a % 2 + b % 2) % 2, XorBits(a / 2, b / 2, bits - 1);
    if k == 0 {
      BitSplit(low, high);
      assert XorBits(a, b, bits) % 2 == low;
    } else {
      XorBitsAt(a / 2, b / 2, bits - 1, k - 1);
      BitSplit(low, high);
      Halves(a, Pow2(k - 1));
      Halves(b, Pow2(k - 1));
      Halves(XorBits(a, b, bits), Pow2(k - 1));
    }
  }

  lemma {:induction false} Pow2Positive(k: nat)
    ensures Pow2(k) > 0
  {
    if k > 0 { Pow2Positive(k - 1); }
  }

  lemma {:induction false} Halves(n: nat, p: nat)
    requires p > 0
    ensures n / (2 * p) == n / 2 / p
  {
    var q := n / 2 / p;
    assert n / 2 == p * q + n / 2 % p;
    assert n == 2 * p * q + (2 * (n / 2 % p) + n % 2) by { assert 2 * (p * q) == 2 * p * q; }
    DivModUnique(n, 2 * p, q, 2 * (n / 2 % p) + n % 2);
  }

  lemma {:induction false} XorIsBitwise(a: byte, b: byte)
    ensures Xor(a, b) % 2 == 1 <==> a % 2 != b % 2
    ensures Xor(a, b) / 2 % 2 == 1 <==> a / 2 % 2 != b / 2 % 2
    ensures Xor(a, b) / 4 % 2 == 1 <==> a / 4 % 2 != b / 4 % 2
    ensures Xor(a, b) / 8 % 2 == 1 <==> a / 8 % 2 != b / 8 % 2
    ensures Xor(a, b) / 16 % 2 == 1 <==> a / 16 % 2 != b / 16 % 2
    ensures Xor(a, b) / 32 % 2 == 1 <==> a / 32 % 2 != b / 32 % 2
    ensures Xor(a, b) / 64 % 2 == 1 <==> a / 64 % 2 != b / 64 % 2
    ensures Xor(a, b) / 128 % 2 == 1 <==> a / 128 % 2 != b / 128 % 2
  {
    assert Pow2(0) == 1 && Pow2(1) == 2 && Pow2(2) == 4 && Pow2(3) == 8;
    assert Pow2(4) == 16 && Pow2(5) == 32 && Pow2(6) == 64 && Pow2(7) == 128;
    XorBitsAt(a, b, 8, 0);
    XorBitsAt(a, b, 8, 1);
    XorBitsAt(a, b, 8, 2);
    XorBitsAt(a, b, 8, 3);
    XorBitsAt(a, b, 8, 4);
    XorBitsAt(a, b, 8, 5);
    XorBitsAt(a, b, 8, 6);
    XorBitsAt(a, b, 8, 7);
  }

  /** Zero takes over the other byte. */
  lemma {:induction false} XorZeroBits(b: nat, bits: nat)
    requires b < Pow2(bits)
    ensures XorBits(0, b, bits) == b
  {
    if bits > 0 { XorZeroBits(b / 2, bits - 1); }
  }

  /** Section 5.3: under a mask, zeros show the key, again and again; so no two keys mask alike. */
  lemma {:induction false} MaskShowsKey(key: seq<byte>, other: seq<byte>, n: nat)
    requires |key| == 4 && |other| == 4
    ensures forall i | 0 <= i < n :: Mask(seq(n, _ => 0), key)[i] == key[i % 4]
    ensures n >= 4 && key != other ==> Mask(seq(n, _ => 0), key) != Mask(seq(n, _ => 0), other)
  {
    var zeros: seq<byte> := seq(n, _ => 0);
    forall i | 0 <= i < n ensures Mask(zeros, key)[i] == key[i % 4] && Mask(zeros, other)[i] == other[i % 4] {
      assert Pow2(8) == 256;
      XorZeroBits(key[i % 4], 8);
      XorZeroBits(other[i % 4], 8);
    }
    if n >= 4 && key != other {
      var i := FirstDifference(key, other);
      assert Mask(zeros, key)[i] != Mask(zeros, other)[i];
    }
  }

  lemma {:induction false} FirstDifference(a: seq<byte>, b: seq<byte>) returns (i: nat)
    requires |a| == |b| && a != b
    ensures i < |a| && a[i] != b[i]
  {
    if a[0] != b[0] {
      i := 0;
    } else {
      assert a == [a[0]] + a[1..] && b == [b[0]] + b[1..];
      i := FirstDifference(a[1..], b[1..]);
      i := i + 1;
    }
  }

  // ---- A frame on the wire --------------------------------------------------------------------------------

  /** Everything a peer may choose: the FIN bit, the reserved bits, the opcode, how many bytes extend the
      length, the masking key and the payload. */
  datatype Wire = Wire(fin: bool, reserved: nat, opcode: nat, ext: nat, key: Option<seq<byte>>, payload: seq<byte>)

  predicate IsWire(w: Wire) {
    && w.reserved < 8 && w.opcode < 16 && (w.key.Some? ==> |w.key.value| == 4)
    && ((w.ext == 0 && |w.payload| < 126) || (w.ext == 2 && |w.payload| < 65536) || (w.ext == 8 && |w.payload| < MAX_LENGTH))
  }

  function LengthBytes(ext: nat, n: nat): (s: seq<byte>)
    requires ext == 0 ==> n < 126
    ensures |s| == 1 + ext && s[0] < 128
  {
    [if ext == 0 then n else if ext == 2 then 126 else 127] + if ext == 0 then [] else ToBigEndian(n, ext)
  }

  function Head(w: Wire): seq<byte>
    requires IsWire(w)
  {
    var len := LengthBytes(w.ext, |w.payload|);
    [(if w.fin then 0x80 else 0) + 16 * w.reserved + w.opcode] + [(if w.key.Some? then 0x80 else 0) + len[0]] + len[1..]
    + if w.key.Some? then w.key.value else []
  }

  function Bytes(w: Wire): seq<byte>
    requires IsWire(w)
  {
    Head(w) + if w.key.Some? then Mask(w.payload, w.key.value) else w.payload
  }

  lemma {:induction false} HeadParts(w: Wire)
    requires IsWire(w)
    ensures var head, len := Head(w), LengthBytes(w.ext, |w.payload|);
            && |head| == 2 + w.ext + (if w.key.Some? then 4 else 0)
            && head[0] / 128 == (if w.fin then 1 else 0) && head[0] % 16 == w.opcode
            && head[1] % 128 == len[0] && head[1] / 128 == (if w.key.Some? then 1 else 0)
            && head[2..2 + w.ext] == len[1..]
            && (w.key.Some? ==> head[|head| - 4..] == w.key.value)
  {
  }

  lemma {:induction false} LengthBytesRead(w: Wire)
    requires IsWire(w)
    ensures var len := LengthBytes(w.ext, |w.payload|);
            ExtendedSize(len[0]) == w.ext && |w.payload| == if w.ext == 0 then len[0] else FromBigEndian(len[1..])
  {
    Pow256Values();
    if w.ext > 0 { BigEndianRoundTrip(|w.payload|, w.ext); }
  }

  lemma {:induction false} HeadReads(w: Wire, body: seq<byte>)
    requires IsWire(w) && |body| >= |w.payload|
    ensures var rx := Head(w) + body;
            && Complete(rx) && HeaderSize(rx) == |Head(w)| && PayloadSize(rx) == |w.payload|
            && (rx[0] >= 128 <==> w.fin) && rx[0] % 16 == w.opcode && (rx[1] >= 128 <==> w.key.Some?)
            && (w.key.Some? ==> rx[HeaderSize(rx) - 4..HeaderSize(rx)] == w.key.value)
  {
    var head := Head(w);
    var rx := head + body;
    HeadParts(w);
    LengthBytesRead(w);
    assert rx[1] % 128 == head[1] % 128 && HeaderSize(rx) == |head|;
    SliceOfSum(head, body, 2, 2 + w.ext);
    if w.key.Some? {
      SliceOfSum(head, body, |head| - 4, |head|);
      assert head[|head| - 4..|head|] == head[|head| - 4..];
    }
  }

  /** Whatever a peer chooses is read as such, whatever follows. */
  lemma {:induction false} BytesRead(w: Wire, more: seq<byte>)
    requires IsWire(w)
    ensures var rx := Bytes(w) + more;
            && Complete(rx) && FrameSize(rx) == |Bytes(w)| && rx[FrameSize(rx)..] == more
            && FrameOf(rx) == Frame(w.fin, w.opcode, w.key.Some?, w.payload)
  {
    var body := if w.key.Some? then Mask(w.payload, w.key.value) else w.payload;
    var rx := Head(w) + (body + more);
    Associative(Head(w), body, more);
    HeadReads(w, body + more);
    assert rx[|Head(w)|..|Head(w)| + |body|] == body;
    if w.key.Some? { MaskTwice(w.payload, w.key.value); }
  }

  lemma {:induction false} ToFromBigEndian(s: seq<byte>)
    ensures ToBigEndian(FromBigEndian(s), |s|) == s
  {
    if s != [] {
      ToFromBigEndian(s[..|s| - 1]);
      assert s == s[..|s| - 1] + [s[|s| - 1]];
    }
  }

  /** What a whole frame says, bit field by bit field. */
  function Parsed(rx: seq<byte>): (w: Wire)
    requires Complete(rx)
  {
    var size, masked := HeaderSize(rx), rx[1] >= 128;
    Wire(rx[0] >= 128, rx[0] / 16 % 8, rx[0] % 16, ExtendedSize(rx[1] % 128),
         if masked then Some(rx[size - 4..size]) else None, FrameOf(rx).payload)
  }

  lemma {:induction false} ParsedIsWire(rx: seq<byte>)
    requires Complete(rx) && Fits(rx)
    ensures IsWire(Parsed(rx)) && |Parsed(rx).payload| == PayloadSize(rx)
    ensures LengthBytes(Parsed(rx).ext, PayloadSize(rx)) == [rx[1] % 128] + rx[2..2 + Parsed(rx).ext]
  {
    Pow256Values();
    var ext := ExtendedSize(rx[1] % 128);
    BigEndianBound(rx[2..2 + ext]);
    ToFromBigEndian(rx[2..2 + ext]);
  }

  lemma {:induction false} HeadInParts(rx: seq<byte>, ext: nat, size: nat)
    requires 2 + ext <= size <= |rx|
    ensures rx[..size] == [rx[0]] + [rx[1]] + rx[2..2 + ext] + rx[2 + ext..size]
  {
  }

  lemma {:induction false} HeadFields(rx: seq<byte>)
    requires Complete(rx) && Fits(rx) && IsWire(Parsed(rx))
    ensures var w, len := Parsed(rx), LengthBytes(Parsed(rx).ext, |Parsed(rx).payload|);
            && (if w.fin then 0x80 else 0) + 16 * w.reserved + w.opcode == rx[0]
            && (if w.key.Some? then 0x80 else 0) + len[0] == rx[1] && len[1..] == rx[2..2 + w.ext]
            && 2 + w.ext <= HeaderSize(rx) <= |rx|
            && (if w.key.Some? then w.key.value else []) == rx[2 + w.ext..HeaderSize(rx)]
  {
    ParsedIsWire(rx);
    if Parsed(rx).key.None? { assert rx[2 + Parsed(rx).ext..HeaderSize(rx)] == []; }
  }

  lemma {:induction false} HeadOfParsed(rx: seq<byte>)
    requires Complete(rx) && Fits(rx) && IsWire(Parsed(rx))
    ensures Head(Parsed(rx)) == rx[..HeaderSize(rx)]
  {
    HeadFields(rx);
    HeadInParts(rx, Parsed(rx).ext, HeaderSize(rx));
  }

  /** There are no other frames: every whole frame is one that a peer can choose, and is read as that. */
  lemma {:induction false} EveryFrameIsWire(rx: seq<byte>) returns (w: Wire)
    requires Complete(rx) && Fits(rx)
    ensures IsWire(w) && Bytes(w) == rx[..FrameSize(rx)]
    ensures FrameOf(rx) == Frame(w.fin, w.opcode, w.key.Some?, w.payload)
  {
    w := Parsed(rx);
    ParsedIsWire(rx);
    HeadOfParsed(rx);
    var size, raw := HeaderSize(rx), rx[HeaderSize(rx)..FrameSize(rx)];
    if w.key.Some? { MaskTwice(raw, w.key.value); }
    assert rx[..FrameSize(rx)] == rx[..size] + raw;
  }

  // ---- What the connection does with a frame --------------------------------------------------------------

  /** The frame that sendData writes: final, with the shortest length, masked with 12 34 56 78 by a client. */
  function Sent(useMask: bool, opcode: nat, payload: seq<byte>): Wire {
    Wire(true, 0, opcode, if |payload| < 126 then 0 else if |payload| < 65536 then 2 else 8,
         if useMask then Some([0x12, 0x34, 0x56, 0x78]) else None, payload)
  }

  lemma {:induction false} EncodeIsSent(opcode: byte, useMask: bool, payload: seq<byte>)
    requires opcode < 16 && |payload| < MAX_LENGTH
    ensures IsWire(Sent(useMask, opcode, payload))
    ensures Encode(opcode, useMask, payload) == Bytes(Sent(useMask, opcode, payload))
  {
  }

  /** The answer to a PING: a PONG frame with the same payload. */
  function Answered(s: Sender, payload: seq<byte>): Sender
    requires |payload| < MAX_LENGTH
  {
    EncodeIsSent(0xA, s.useMask, payload);
    if s.readyState == OPEN then s.(txbuf := s.txbuf + Bytes(Sent(s.useMask, 0xA, payload))) else s
  }

  /** close(): an empty frame with opcode 8 under a mask of zeros. */
  function Closed(s: Sender): Sender {
    if s.readyState == OPEN then s.(txbuf := s.txbuf + [0x88, 0x80, 0, 0, 0, 0], readyState := CLOSING) else s
  }

  /** One round of the dispatch loop on a frame: opcodes 0, 1 and 2 carry a part of a message, which is
      delivered at the FIN bit; a PING (9) is answered; a PONG (10) is skipped; any other frame closes. */
  lemma {:induction false} WireIsHandled(c: Conn, w: Wire, more: seq<byte>)
    requires IsWire(w) && c.rxbuf == Bytes(w) + more && Fits(c.rxbuf)
    ensures var all, rest := c.received + w.payload, c.(rxbuf := more);
            CodeRound(c) ==
              if w.opcode in {0, 1, 2} then
                if w.fin then Took(rest.(received := []), [all]) else Took(rest.(received := all), [])
              else if w.opcode == 9 then Took(rest.(out := Answered(c.out, w.payload)), [])
              else if w.opcode == 10 then Took(rest, [])
              else Took(rest.(out := Closed(c.out)), [])
  {
    BytesRead(w, more);
    RoundOfWhole(c);
    EncodeIsSent(0xA, c.out.useMask, w.payload);
  }

  // ---- Fragmented messages ----------------------------------------------------------------------------------

  predicate AreWires(ws: seq<Wire>) { forall i | 0 <= i < |ws| :: IsWire(ws[i]) }

  function AllBytes(ws: seq<Wire>): seq<byte>
    requires AreWires(ws)
  {
    if ws == [] then [] else Bytes(ws[0]) + AllBytes(ws[1..])
  }

  /** Section 5.4: the frames carry these messages, each cut into any number of parts. The first part of a
      message has opcode 1 or 2, the others have opcode 0, and the last one has the FIN bit; PINGs and PONGs may
      stand anywhere. With "started", the first message is the rest of one that has begun. */
  predicate Carries(ws: seq<Wire>, started: bool, messages: seq<Message>)
    decreases |ws|
  {
    if ws == [] then !started && messages == []
    else
      var w := ws[0];
      if w.opcode in {9, 10} then Carries(ws[1..], started, messages)
      else
        && messages != [] && w.payload <= messages[0]
        && w.opcode in (if started then {0} else {1, 2})
        && if w.fin then w.payload == messages[0] && Carries(ws[1..], false, messages[1..])
           else Carries(ws[1..], true, [messages[0][|w.payload|..]] + messages[1..])
  }

  /** One PONG for each PING. */
  function AllAnswered(s: Sender, ws: seq<Wire>): Sender
    requires AreWires(ws)
    decreases |ws|
  {
    if ws == [] then s
    else AllAnswered(if ws[0].opcode == 9 then Answered(s, ws[0].payload) else s, ws[1..])
  }

  function Continued(received: seq<byte>, messages: seq<Message>): seq<Message> {
    if messages == [] then [] else [received + messages[0]] + messages[1..]
  }

  lemma {:induction false} DispatchGoesOn(c: Conn, w: Wire, more: seq<byte>)
    requires IsWire(w) && c.rxbuf == Bytes(w) + more && Fits(c.rxbuf)
    ensures CodeRound(c).Took? && CodeRound(c).next.rxbuf == more && Fits(more)
    ensures var next := CodeRound(c).next;
            Dispatch(c) == (Dispatch(next).0, CodeRound(c).messages + Dispatch(next).1)
  {
    BytesRead(w, more);
    RoundOfWhole(c);
  }

  lemma {:induction false} ControlGoesOn(c: Conn, w: Wire, more: seq<byte>)
    requires IsWire(w) && c.rxbuf == Bytes(w) + more && Fits(c.rxbuf) && w.opcode in {9, 10}
    ensures var next := c.(rxbuf := more, out := if w.opcode == 9 then Answered(c.out, w.payload) else c.out);
            Fits(more) && Dispatch(c) == Dispatch(next)
  {
    DispatchGoesOn(c, w, more);
    WireIsHandled(c, w, more);
    assert [] + Dispatch(CodeRound(c).next).1 == Dispatch(CodeRound(c).next).1;
  }

  lemma {:induction false} DataGoesOn(c: Conn, w: Wire, more: seq<byte>)
    requires IsWire(w) && c.rxbuf == Bytes(w) + more && Fits(c.rxbuf) && w.opcode in {0, 1, 2}
    ensures var all := c.received + w.payload;
            var next := c.(rxbuf := more, received := if w.fin then [] else all);
            Fits(more) && Dispatch(c) == (Dispatch(next).0, (if w.fin then [all] else []) + Dispatch(next).1)
  {
    DispatchGoesOn(c, w, more);
    WireIsHandled(c, w, more);
  }

  lemma {:induction false} ContinuedTwice(received: seq<byte>, part: seq<byte>, messages: seq<Message>)
    requires messages != [] && part <= messages[0]
    ensures Continued(received + part, [messages[0][|part|..]] + messages[1..]) == Continued(received, messages)
    ensures part == messages[0] ==> Continued(received, messages) == [received + part] + Continued([], messages[1..])
  {
    assert messages[0] == part + messages[0][|part|..];
    Associative(received, part, messages[0][|part|..]);
    assert forall m: Message :: [] + m == m;
  }

  /** The frames are taken one by one; "messages" begins with the rest of the message that has begun. */
  lemma {:induction false} PartsAreJoined(c: Conn, ws: seq<Wire>, started: bool, messages: seq<Message>, more: seq<byte>)
    requires AreWires(ws) && Carries(ws, started, messages) && (started || c.received == [])
    requires c.rxbuf == AllBytes(ws) + more && Fits(c.rxbuf)
    ensures var c' := c.(rxbuf := more, received := [], out := AllAnswered(c.out, ws));
            Fits(more) && Dispatch(c) == (Dispatch(c').0, Continued(c.received, messages) + Dispatch(c').1)
    decreases |ws|
  {
    if ws == [] {
      assert c.rxbuf == more;
      assert [] + Dispatch(c).1 == Dispatch(c).1;
    } else {
      Associative(Bytes(ws[0]), AllBytes(ws[1..]), more);
      if ws[0].opcode in {9, 10} {
        var behind := AllBytes(ws[1..]) + more;
        ControlGoesOn(c, ws[0], behind);
        var out := if ws[0].opcode == 9 then Answered(c.out, ws[0].payload) else c.out;
        PartsAreJoined(c.(rxbuf := behind, out := out), ws[1..], started, messages, more);
      } else {
        DataIsJoined(c, ws, started, messages, more);
      }
    }
  }

  lemma {:induction false} DataIsJoined(c: Conn, ws: seq<Wire>, started: bool, messages: seq<Message>, more: seq<byte>)
    requires AreWires(ws) && Carries(ws, started, messages) && (started || c.received == [])
    requires ws != [] && ws[0].opcode !in {9, 10}
    requires c.rxbuf == Bytes(ws[0]) + (AllBytes(ws[1..]) + more) && Fits(c.rxbuf)
    ensures var c' := c.(rxbuf := more, received := [], out := AllAnswered(c.out, ws));
            Fits(more) && Dispatch(c) == (Dispatch(c').0, Continued(c.received, messages) + Dispatch(c').1)
    decreases |ws|, 0
  {
    var w, behind := ws[0], AllBytes(ws[1..]) + more;
    var all := c.received + w.payload;
    var c' := c.(rxbuf := more, received := [], out := AllAnswered(c.out, ws));
    DataGoesOn(c, w, behind);
    ContinuedTwice(c.received, w.payload, messages);
    if w.fin {
      PartsAreJoined(c.(rxbuf := behind, received := []), ws[1..], false, messages[1..], more);
      Associative([all], Continued([], messages[1..]), Dispatch(c').1);
    } else {
      var next := c.(rxbuf := behind, received := all);
      PartsAreJoined(next, ws[1..], true, [messages[0][|w.payload|..]] + messages[1..], more);
      assert [] + Dispatch(next).1 == Dispatch(next).1;
    }
  }

  lemma {:induction false} NothingToTake(c: Conn)
    requires c.rxbuf == []
    ensures Dispatch(c) == (c, [])
  {
  }

  lemma {:induction false} NothingContinued(messages: seq<Message>)
    ensures Continued([], messages) + [] == messages
  {
    if messages != [] { assert [] + messages[0] == messages[0]; }
  }

  lemma {:induction false} AllAtOnce(c: Conn, ws: seq<Wire>, messages: seq<Message>)
    requires AreWires(ws) && Carries(ws, false, messages) && c.received == []
    requires c.rxbuf == AllBytes(ws) + [] && Fits(c.rxbuf)
    ensures Dispatch(c) == (c.(rxbuf := [], out := AllAnswered(c.out, ws)), messages)
  {
    PartsAreJoined(c, ws, false, messages, []);
    NothingContinued(messages);
    NothingToTake(c.(rxbuf := [], out := AllAnswered(c.out, ws)));
  }

  /** Any messages, each cut into any number of frames, with PINGs and PONGs anywhere between them, the bytes cut
      into any chunks, and a call of _dispatchBinary after each: exactly these messages are delivered, every PING
      is answered, and nothing is left over. */
  lemma {:induction false} MessagesAreJoined(c: Conn, ws: seq<Wire>, messages: seq<Message>, chunks: seq<seq<byte>>)
    requires AreWires(ws) && Carries(ws, false, messages) && c.received == []
    requires chunks != [] && c.rxbuf + Flatten(chunks) == AllBytes(ws) && Fits(AllBytes(ws))
    ensures Feeds(c, chunks, c.(rxbuf := [], out := AllAnswered(c.out, ws)), messages)
  {
    var all := c.(rxbuf := AllBytes(ws));
    assert AllBytes(ws) == AllBytes(ws) + [];
    AllAtOnce(all, ws, messages);
    DispatchIsOneShot(all);
    DispatchLeavesRest(all);
    ChunkingInCode(c, chunks);
  }

  /** A message in two frames: the bytes 01 01 61 and 80 01 62 give "ab" once the second has come. */
  lemma {:induction false} FragmentExample(c: Conn, chunks: seq<seq<byte>>)
    requires c.rxbuf == [] && c.received == [] && chunks == [[0x01, 0x01, 0x61], [0x80, 0x01, 0x62]]
    ensures Fits(c.rxbuf + Flatten(chunks)) && Feeds(c, chunks, c, [[0x61, 0x62]])
  {
    var first, second := Wire(false, 0, 1, 0, None, [0x61]), Wire(true, 0, 0, 0, None, [0x62]);
    assert Bytes(first) == chunks[0] && Bytes(second) == chunks[1];
    assert AllBytes([second]) == chunks[1] + [] && AllBytes([first, second]) == chunks[0] + AllBytes([second]);
    assert Flatten(chunks[1..]) == chunks[1] + [] && Flatten(chunks) == chunks[0] + Flatten(chunks[1..]);
    assert c.rxbuf + Flatten(chunks) == AllBytes([first, second]);
    assert [first, second][1..] == [second] && [second][1..] == [];
    assert Carries([second], true, [[0x62]]);
    assert Carries([first, second], false, [[0x61, 0x62]]);
    assert AllAnswered(c.out, [first, second]) == AllAnswered(c.out, [second]) == c.out;
    MessagesAreJoined(c, [first, second], [[0x61, 0x62]], chunks);
  }

  // ---- What is sent -------------------------------------------------------------------------------------------

  /** sendData and close append these bytes to txbuf, if the connection is OPEN. */
  lemma {:induction false} QueueIsBytes(s: Sender, opcode: byte, payload: seq<byte>)
    requires opcode < 16 && |payload| < MAX_LENGTH && s.readyState == OPEN
    ensures IsWire(Sent(s.useMask, opcode, payload))
    ensures Queue(s, Out(opcode, payload)) == s.(txbuf := s.txbuf + Bytes(Sent(s.useMask, opcode, payload)))
    ensures Queue(s, OutClose) == Closed(s)
  {
    EncodeIsSent(opcode, s.useMask, payload);
  }

  lemma {:induction false} XorStep(a: nat, b: nat, bits: nat, high: nat)
    requires bits > 0 && XorBits(a / 2, b / 2, bits - 1) == high
    ensures XorBits(a, b, bits) == (a % 2 + b % 2) % 2 + 2 * high
  {
  }

  lemma {:induction false} XorHigh()
    ensures XorBits(0x04, 0x01, 4) == 5
  {
    XorStep(0x01, 0x00, 2, 0);
    XorStep(0x02, 0x00, 3, 1);
    XorStep(0x04, 0x01, 4, 2);
  }

  lemma {:induction false} XorExample()
    ensures Xor(0x41, 0x12) == 0x53
  {
    XorHigh();
    XorStep(0x08, 0x02, 5, 5);
    XorStep(0x10, 0x04, 6, 10);
    XorStep(0x20, 0x09, 7, 20);
    XorStep(0x41, 0x12, 8, 41);
  }

  lemma {:induction false} SentExample()
    ensures IsWire(Sent(true, 1, [0x41]))
    ensures Bytes(Sent(true, 1, [0x41])) == [0x81, 0x81, 0x12, 0x34, 0x56, 0x78, 0x53]
  {
    XorExample();
    var w := Sent(true, 1, [0x41]);
    assert Mask(w.payload, w.key.value) == [0x53];
    assert Head(w) == [0x81, 0x81, 0x12, 0x34, 0x56, 0x78];
  }

  /** A client sends "A" as 81 81 12 34 56 78 53, since 41 and 12 make 53. */
  lemma {:induction false} SendExample(s: Sender)
    requires s.readyState == OPEN && s.useMask
    ensures Queue(s, Out(1, [0x41])) == s.(txbuf := s.txbuf + [0x81, 0x81, 0x12, 0x34, 0x56, 0x78, 0x53])
  {
    QueueIsBytes(s, 1, [0x41]);
    SentExample();
  }
}
