/** The methods of _RealWebSocket, updating their buffers in place, proved against the functions of
    the connection.  */
module WebSocketClient {
  import opened Basics
  import opened WebSocketFrames
  import opened WebSocketConnection
  import opened WebSocketRuns
  import opened WebSocketOverflow
  import opened Modular

  /** A byte of a big-endian number by shifting, as sendData computes it. */
  lemma {:induction false} ToBigEndianAt(n: nat, size: nat, i: nat)
    requires i < size
    ensures Pow256(size - 1 - i) > 0
    ensures ToBigEndian(n, size)[i] == (n / Pow256(size - 1 - i)) % 256
  {
    PowPositive(size - 1 - i);
    if i < size - 1 {
      ToBigEndianAt(n / 256, size - 1, i);
      DivDiv(n, 256, Pow256(size - 2 - i));
    }
  }

  lemma {:induction false} PowPositive(k: nat)
    ensures Pow256(k) > 0
  {
    if k > 0 { PowPositive(k - 1); }
  }

  lemma {:induction false} DivDiv(n: nat, a: nat, b: nat)
    requires a > 0 && b > 0
    ensures a * b > 0 && n / a / b == n / (a * b)
  {
    var q, r := n / a / b, n / a % b;
    assert n == a * (n / a) + n % a;
    assert n / a == b * q + r;
    assert a * (b * q + r) == a * b * q + a * r by { assert a * (b * q) == a * b * q; }
    assert a * r + n % a < a * b by { assert a * r <= a * (b - 1); }
    DivModUnique(n, a * b, q, a * r + n % a);
  }

  lemma {:induction false} PowersOf256()
    ensures Pow256(0) == 1 && Pow256(1) == 0x100 && Pow256(2) == 0x1_0000 && Pow256(3) == 0x100_0000
    ensures Pow256(4) == 0x1_0000_0000 && Pow256(5) == 0x100_0000_0000 && Pow256(6) == 0x1_0000_0000_0000
    ensures Pow256(7) == 0x100_0000_0000_0000
  {
    assert Pow256(1) == 0x100;
    assert Pow256(3) == 0x100_0000;
    assert Pow256(5) == 0x100_0000_0000;
  }

  lemma {:induction false} FromBigEndianSnoc(s: seq<byte>, b: byte)
    ensures FromBigEndian(s + [b]) == FromBigEndian(s) * 256 + b
  {
    assert (s + [b])[..|s|] == s;
  }

  /** The eight shifted bytes that _dispatchBinary combines with "or". */
  lemma {:induction false} FromBigEndian8(s: seq<byte>)
    requires |s| == 8
    ensures FromBigEndian(s) ==
            (s[0] as int) * 0x100_0000_0000_0000 + (s[1] as int) * 0x1_0000_0000_0000 + (s[2] as int) * 0x100_0000_0000 + (s[3] as int) * 0x1_0000_0000
            + (s[4] as int) * 0x100_0000 + (s[5] as int) * 0x1_0000 + (s[6] as int) * 0x100 + s[7]
  {
    FromBigEndian4(s[..4]);
    assert s[..5] == s[..4] + [s[4]] && s[..6] == s[..5] + [s[5]] && s[..7] == s[..6] + [s[6]] && s == s[..7] + [s[7]];
    FromBigEndianSnoc(s[..4], s[4]);
    FromBigEndianSnoc(s[..5], s[5]);
    FromBigEndianSnoc(s[..6], s[6]);
    FromBigEndianSnoc(s[..7], s[7]);
  }

  lemma {:induction false} FromBigEndian4(s: seq<byte>)
    requires |s| == 4
    ensures FromBigEndian(s) == (s[0] as int) * 0x100_0000 + (s[1] as int) * 0x1_0000 + (s[2] as int) * 0x100 + s[3]
  {
    FromBigEndian2(s[..2]);
    assert s[..3] == s[..2] + [s[2]] && s == s[..3] + [s[3]];
    FromBigEndianSnoc(s[..2], s[2]);
    FromBigEndianSnoc(s[..3], s[3]);
  }

  lemma {:induction false} FromBigEndian2(s: seq<byte>)
    requires |s| == 2
    ensures FromBigEndian(s) == (s[0] as int) * 256 + s[1]
  {
    assert s[..1] == [] + [s[0]] && s == s[..1] + [s[1]];
    FromBigEndianSnoc([], s[0]);
    FromBigEndianSnoc(s[..1], s[1]);
  }

  /** The header vector of sendData, assigned byte by byte. */
  method BuildHeader(opcode: byte, useMask: bool, size: nat) returns (header: seq<byte>)
    requires opcode < 16 && size < MAX_LENGTH
    ensures header == Header(opcode, useMask, size)
  {
    var headerSize := 2 + (if size >= 126 then 2 else 0) + (if size >= 65536 then 6 else 0) + (if useMask then 4 else 0);
    header := seq(headerSize, _ => 0);
    header := header[0 := 0x80 + opcode];
    var maskBit := if useMask then 0x80 else 0;
    var i;
    header, i := WriteLength(header, maskBit, size);
    if useMask {
      header := WriteKey(header, i);
    } else {
      assert header == header[..i];
    }
  }

  method WriteLength(header: seq<byte>, maskBit: byte, size: nat) returns (header': seq<byte>, i: nat)
    requires size < MAX_LENGTH && maskBit <= 0x80
    requires |header| >= 2 + (if size >= 126 then 2 else 0) + (if size >= 65536 then 6 else 0)
    ensures |header'| == |header| && i == 1 + |LengthField(size)|
    ensures header'[..i] == [header[0]] + [LengthField(size)[0] + maskBit] + LengthField(size)[1..]
  {
    if size < 126 {
      header', i := header[1 := size + maskBit], 2;
    } else if size < 65536 {
      Length2(size);
      header' := header[1 := 126 + maskBit][2 := (size / 0x100) % 0x100][3 := size % 0x100];
      i := 4;
    } else {
      Length8(size);
      header' := WriteBytes(header[1 := 127 + maskBit],
        [(size / 0x100_0000_0000_0000) % 0x100, (size / 0x1_0000_0000_0000) % 0x100,
         (size / 0x100_0000_0000) % 0x100, (size / 0x1_0000_0000) % 0x100,
         (size / 0x100_0000) % 0x100, (size / 0x1_0000) % 0x100, (size / 0x100) % 0x100, size % 0x100]);
      i := 10;
    }
  }

  method WriteBytes(header: seq<byte>, bytes: seq<byte>) returns (header': seq<byte>)
    requires |header| >= 10 && |bytes| == 8
    ensures |header'| == |header| && header'[..10] == header[..2] + bytes
  {
    header' := header[2 := bytes[0]][3 := bytes[1]][4 := bytes[2]][5 := bytes[3]]
                     [6 := bytes[4]][7 := bytes[5]][8 := bytes[6]][9 := bytes[7]];
  }

  method WriteKey(header: seq<byte>, i: nat) returns (header': seq<byte>)
    requires i + 4 == |header|
    ensures header' == header[..i] + MASKING_KEY
  {
    header' := header[i := MASKING_KEY[0]][i + 1 := MASKING_KEY[1]][i + 2 := MASKING_KEY[2]][i + 3 := MASKING_KEY[3]];
  }

  lemma {:induction false} Length2(size: nat)
    requires 126 <= size < 65536
    ensures LengthField(size) == [126] + [(size / 0x100) % 0x100, size % 0x100]
  {
    PowersOf256();
    ToBigEndianAt(size, 2, 0);
    ToBigEndianAt(size, 2, 1);
  }

  lemma {:induction false} Length8(size: nat)
    requires 65536 <= size < MAX_LENGTH
    ensures LengthField(size) ==
            [127] + [(size / 0x100_0000_0000_0000) % 0x100, (size / 0x1_0000_0000_0000) % 0x100,
                     (size / 0x100_0000_0000) % 0x100, (size / 0x1_0000_0000) % 0x100,
                     (size / 0x100_0000) % 0x100, (size / 0x1_0000) % 0x100, (size / 0x100) % 0x100, size % 0x100]
  {
    PowersOf256();
    forall i | 0 <= i < 8
      ensures ToBigEndian(size, 8)[i] == (size / Pow256(7 - i)) % 256
    {
      ToBigEndianAt(size, 8, i);
    }
  }

  /** The number of payload bytes as _dispatchBinary computes it. */
  lemma {:induction false} PayloadBytes(rx: seq<byte>)
    requires |rx| >= 2 && |rx| >= HeaderSize(rx)
    ensures rx[1] % 0x80 < 126 ==> PayloadSize(rx) == rx[1] % 0x80
    ensures rx[1] % 0x80 == 126 ==> PayloadSize(rx) == (rx[2] as int) * 0x100 + rx[3]
    ensures rx[1] % 0x80 == 127 ==>
              PayloadSize(rx) ==
              (rx[2] as int) * 0x100_0000_0000_0000 + (rx[3] as int) * 0x1_0000_0000_0000
              + (rx[4] as int) * 0x100_0000_0000 + (rx[5] as int) * 0x1_0000_0000
              + (rx[6] as int) * 0x100_0000 + (rx[7] as int) * 0x1_0000 + (rx[8] as int) * 0x100 + rx[9]
  {
    if rx[1] % 0x80 == 126 {
      FromBigEndian2(rx[2..4]);
    } else if rx[1] % 0x80 == 127 {
      FromBigEndian8(rx[2..10]);
    }
  }

  lemma {:induction false} FourBytes(rx: seq<byte>, i: nat)
    requires i + 4 <= |rx|
    ensures rx[i..i + 4] == [rx[i], rx[i + 1], rx[i + 2], rx[i + 3]]
  {
  }

  /** XOR the last "size" bytes of a buffer with a key, one after the other. */
  method MaskInPlace(buffer: seq<byte>, start: nat, size: nat, key: seq<byte>) returns (buffer': seq<byte>)
    requires start + size <= |buffer| && |key| == 4
    ensures buffer' == buffer[..start] + Mask(buffer[start..start + size], key) + buffer[start + size..]
  {
    buffer' := buffer;
    for i := 0 to size
      invariant |buffer'| == |buffer|
      invariant forall j | 0 <= j < |buffer| ::
                  buffer'[j] == if start <= j < start + i then Xor(buffer[j], key[(j - start) % 4]) else buffer[j]
    {
      buffer' := buffer'[start + i := Xor(buffer'[start + i], key[i % 4])];
    }
  }

  /** A message masked behind its header is the frame. */
  lemma {:induction false} MaskedFrame(before: seq<byte>, header: seq<byte>, message: seq<byte>, opcode: byte)
    requires opcode < 16 && |message| < MAX_LENGTH && header == Header(opcode, true, |message|)
    ensures var all := before + header + message;
            var start := |all| - |message|;
            all[..start] + Mask(all[start..start + |message|], MASKING_KEY) + all[start + |message|..]
            == before + Encode(opcode, true, message)
  {
    TailOfSum(before + header, message);
    Associative(before, header, Mask(message, MASKING_KEY));
  }

  lemma {:induction false} MiddleOfSum(a: seq<byte>, b: seq<byte>, c: seq<byte>)
    ensures var all := a + b + c;
            all[|a|..|a| + |b|] == b && all[|a| + |b|..] == c
  {
  }

  lemma {:induction false} TailOfSum(a: seq<byte>, b: seq<byte>)
    ensures var all := a + b;
            var start := |all| - |b|;
            all[..start] == a && all[start..start + |b|] == b && all[start + |b|..] == []
  {
  }

  datatype Ending = Returns | OutOfBounds | StillRuns

  class RealWebSocket {
    const useMask: bool
    var rxbuf: seq<byte>
    var txbuf: seq<byte>
    var receivedData: seq<byte>
    var readyState: ReadyState
    // The socket, as far as it can be observed
    var socketOpen: bool
    ghost var failed: bool
    ghost var sent: seq<byte>

    ghost function Value(): Conn
      reads this
    {
      Conn(rxbuf, receivedData, Sender(useMask, txbuf, readyState, socketOpen, failed, sent))
    }

    constructor (useMask: bool)
      ensures Value() == Fresh(useMask)
    {
      this.useMask := useMask;
      rxbuf, txbuf, receivedData, readyState := [], [], [], OPEN;
      socketOpen, failed, sent := true, false, [];
    }

    method SendData(opcode: byte, message: seq<byte>)
      requires opcode < 16 && |message| < MAX_LENGTH
      modifies this`txbuf
      ensures Value().out == Queue(old(Value().out), Out(opcode, message))
    {
      if readyState == CLOSING || readyState == CLOSED {
        return;
      }
      var header := BuildHeader(opcode, useMask, |message|);
      ghost var before := txbuf;
      txbuf := txbuf + header;
      txbuf := txbuf + message;
      if useMask {
        txbuf := MaskInPlace(txbuf, |txbuf| - |message|, |message|, MASKING_KEY);
        MaskedFrame(before, header, message, opcode);
      } else {
        Associative(before, header, message);
      }
    }

    method Close()
      modifies this`txbuf, this`readyState
      ensures Value().out == Queue(old(Value().out), OutClose)
    {
      if readyState == CLOSING || readyState == CLOSED {
        return;
      }
      readyState := CLOSING;
      var closeFrame := [0x88, 0x80, 0x00, 0x00, 0x00, 0x00];
      txbuf := txbuf + closeFrame;
    }

    /** Look at the front of the buffer without consuming it. */
    method PeekHeader() returns (whole: bool, headerSize: nat, n: nat, key: seq<byte>)
      ensures whole <==> WholeInCode(rxbuf)
      ensures whole ==> headerSize == HeaderSize(rxbuf) && n == PayloadSize(rxbuf)
      ensures whole ==> key == if rxbuf[1] >= 128 then rxbuf[headerSize - 4..headerSize] else [0, 0, 0, 0]
    {
      whole, headerSize, n, key := false, 0, 0, [0, 0, 0, 0];
      if |rxbuf| < 2 { return; }
      var mask := rxbuf[1] >= 0x80;
      var n0 := rxbuf[1] % 0x80;
      headerSize := 2 + (if n0 == 126 then 2 else 0) + (if n0 == 127 then 8 else 0) + (if mask then 4 else 0);
      if |rxbuf| < headerSize { return; }
      var i := 0;
      if n0 < 126 {
        n := n0;
        i := 2;
      } else if n0 == 126 {
        n := (rxbuf[2] as int) * 0x100 + rxbuf[3];
        i := 4;
      } else {
        n := (rxbuf[2] as int) * 0x100_0000_0000_0000 + (rxbuf[3] as int) * 0x1_0000_0000_0000
             + (rxbuf[4] as int) * 0x100_0000_0000 + (rxbuf[5] as int) * 0x1_0000_0000
             + (rxbuf[6] as int) * 0x100_0000 + (rxbuf[7] as int) * 0x1_0000 + (rxbuf[8] as int) * 0x100 + rxbuf[9];
        i := 10;
      }
      PayloadBytes(rxbuf);
      if mask {
        FourBytes(rxbuf, i);
        key := [rxbuf[i], rxbuf[i + 1], rxbuf[i + 2], rxbuf[i + 3]];
      }
      if |rxbuf| < (headerSize + n) % WORD { return; }
      whole := true;
    }

    /** The payload is combined with its key where it stands. */
    method Unmask(headerSize: nat, n: nat, key: seq<byte>)
      requires Complete(rxbuf) && headerSize == HeaderSize(rxbuf) && n == PayloadSize(rxbuf)
      requires |key| == 4 && (rxbuf[1] >= 128 ==> key == rxbuf[headerSize - 4..headerSize])
      modifies this`rxbuf
      ensures |rxbuf| == old(|rxbuf|) && headerSize + n <= |rxbuf|
      ensures rxbuf[headerSize..headerSize + n] == FrameOf(old(rxbuf)).payload
      ensures rxbuf[headerSize + n..] == old(rxbuf)[headerSize + n..]
    {
      if rxbuf[1] >= 0x80 {
        ghost var before := rxbuf;
        rxbuf := MaskInPlace(rxbuf, headerSize, n, key);
        MiddleOfSum(before[..headerSize], Mask(before[headerSize..headerSize + n], key), before[headerSize + n..]);
      }
    }

    /** A data frame feeds the message; the last one delivers it. */
    method HandleData(headerSize: nat, n: nat, key: seq<byte>) returns (delivered: seq<Message>)
      requires Complete(rxbuf) && headerSize == HeaderSize(rxbuf) && n == PayloadSize(rxbuf)
      requires |key| == 4 && (rxbuf[1] >= 128 ==> key == rxbuf[headerSize - 4..headerSize])
      modifies this`rxbuf, this`receivedData
      ensures |rxbuf| == old(|rxbuf|) && rxbuf[headerSize + n..] == old(rxbuf)[headerSize + n..]
      ensures var f, all := FrameOf(old(rxbuf)), old(receivedData) + FrameOf(old(rxbuf)).payload;
              receivedData == (if f.fin then [] else all) && delivered == if f.fin then [all] else []
    {
      delivered := [];
      var fin := rxbuf[0] >= 0x80;
      Unmask(headerSize, n, key);
      receivedData := receivedData + rxbuf[headerSize..headerSize + n];
      if fin {
        delivered := [receivedData];
        receivedData := [];
      }
    }

    /** What is done with a frame that the code takes for whole.  With a length that overflows, the payload
        would be read and written outside of the buffer. */
    method HandleFrame(headerSize: nat, n: nat, key: seq<byte>) returns (outOfBounds: bool, delivered: seq<Message>)
      requires Fits(rxbuf) && WholeInCode(rxbuf) && headerSize == HeaderSize(rxbuf) && n == PayloadSize(rxbuf)
      requires |key| == 4 && (rxbuf[1] >= 128 ==> key == rxbuf[headerSize - 4..headerSize])
      modifies this`rxbuf, this`txbuf, this`receivedData, this`readyState
      ensures |rxbuf| == old(|rxbuf|) && (Complete(old(rxbuf)) ==> rxbuf[headerSize + n..] == old(rxbuf)[headerSize + n..])
      ensures Complete(old(rxbuf)) ==>
                !outOfBounds && (Value().(rxbuf := old(rxbuf)), delivered) == OnFrame(old(Value()), FrameOf(old(rxbuf)))
      ensures !Complete(old(rxbuf)) ==>
                (outOfBounds <==> UsesPayload(old(rxbuf)[0] % 16)) && delivered == []
                && (!outOfBounds ==> Value() == SkipOrClose(old(Value()), old(rxbuf)[0] % 16))
    {
      outOfBounds, delivered := false, [];
      var opcode := rxbuf[0] % 16;
      if opcode == TEXT_FRAME || opcode == BINARY_FRAME || opcode == CONTINUATION {
        if |rxbuf| < headerSize + n { return true, []; }
        delivered := HandleData(headerSize, n, key);
      } else if opcode == PING {
        if |rxbuf| < headerSize + n { return true, []; }
        Unmask(headerSize, n, key);
        SendData(PONG, rxbuf[headerSize..headerSize + n]);
      } else if opcode == PONG {
      } else {
        Close();
      }
    }

    /** One round of the loop of _dispatchBinary. */
    method DispatchFrame() returns (progress: bool, outOfBounds: bool, delivered: seq<Message>)
      requires Fits(rxbuf)
      modifies this`rxbuf, this`txbuf, this`receivedData, this`readyState
      ensures match CodeRound(old(Value()))
              case Wait => !progress && !outOfBounds && Value() == old(Value()) && delivered == []
              case Undefined => !progress && outOfBounds
              case Took(next, messages) => progress && !outOfBounds && Value() == next && delivered == messages
    {
      outOfBounds, delivered := false, [];
      var headerSize, n, key;
      progress, headerSize, n, key := PeekHeader();
      WholeExactly(rxbuf);
      if progress {
        OverflowIsSmall(rxbuf);
        outOfBounds, delivered := HandleFrame(headerSize, n, key);
        if outOfBounds { return false, true, []; }
        rxbuf := rxbuf[(headerSize + n) % WORD..];
      }
    }

    /** The loop for at most "rounds" rounds, since it does not always end.  The callback receives the messages of
        "delivered", one call each, in that order. */
    method DispatchBinary(rounds: nat)
      returns (ending: Ending, delivered: seq<Message>, ghost t: seq<Conn>, ghost m: seq<seq<Message>>)
      requires Fits(rxbuf)
      modifies this`rxbuf, this`txbuf, this`receivedData, this`readyState
      ensures IsRun(t, m) && t[0] == old(Value()) && delivered == Flatten(m)
      ensures match ending
              case Returns => CodeRound(t[|m|]) == Wait && Value() == t[|m|]
              case OutOfBounds => CodeRound(t[|m|]) == Undefined
              case StillRuns => |m| == rounds && Value() == t[|m|]
      ensures !Overflows(Rest(old(rxbuf))) && rounds > |Frames(old(rxbuf))| ==>
                ending == Returns && (Value(), delivered) == Dispatch(old(Value()))
    {
      ending, delivered, t, m := StillRuns, [], [Value()], [];
      for i := 0 to rounds
        invariant ending == StillRuns && IsRun(t, m) && |m| == i && t[0] == old(Value()) && t[i] == Value() && delivered == Flatten(m)
      {
        var progress, outOfBounds, out := DispatchFrame();
        if outOfBounds || !progress {
          ending := if outOfBounds then OutOfBounds else Returns;
          break;
        }
        delivered := delivered + out;
        RunSnoc(t, m, Value(), out);
        t, m := t + [Value()], m + [out];
      }
      if !Overflows(Rest(t[0].rxbuf)) { RunEnds(t, m); }
    }

    /** The results of recv and send are given; when a script ends, the call would block. */
    method PollSocket(recvs: seq<Recv>, sends: seq<Sent>)
      modifies this`rxbuf, this`txbuf, this`readyState, this`socketOpen, this`failed, this`sent
      ensures Value() == Poll(old(Value()), recvs, sends)
    {
      if readyState == CLOSED {
        return;
      }
      PollReceive(recvs);
      PollSend(sends);
      if |txbuf| == 0 && readyState == CLOSING {
        socketOpen := false;
        readyState := CLOSED;
      }
    }

    method PollReceive(recvs: seq<Recv>)
      modifies this`rxbuf, this`readyState, this`socketOpen, this`failed
      ensures Value() == ReceiveLoop(old(Value()), recvs)
    {
      var i := 0;
      while i < |recvs|
        invariant 0 <= i <= |recvs|
        invariant ReceiveLoop(old(Value()), recvs) == ReceiveLoop(Value(), recvs[i..])
      {
        match recvs[i] {
          case Received(bytes) =>
            rxbuf := rxbuf + bytes;
          case RecvFailed =>
            socketOpen, failed := false, true;
            readyState := CLOSED;
            return;
        }
        i := i + 1;
      }
    }

    method PollSend(sends: seq<Sent>)
      modifies this`txbuf, this`readyState, this`socketOpen, this`failed, this`sent
      ensures Value() == old(Value()).(out := SendLoop(old(Value().out), sends))
    {
      var i := 0;
      while |txbuf| > 0
        invariant 0 <= i <= |sends|
        invariant SendLoop(old(Value().out), sends) == SendLoop(Value().out, sends[i..])
        decreases |sends| - i
      {
        if socketOpen && i == |sends| {
          return;
        }
        if !socketOpen || sends[i].SendFailed? {
          socketOpen, failed := false, true;
          readyState := CLOSED;
          return;
        }
        var ret := if sends[i].n + 1 < |txbuf| then sends[i].n + 1 else |txbuf|;
        sent := sent + txbuf[..ret];
        txbuf := txbuf[ret..];
        i := i + 1;
      }
    }
  }
}
