/** The frame format of RFC 6455 section 5.2 as Websocket/pushcpp/easywsclient.cpp reads and writes
    it, on byte sequences.  */
module WebSocketFrames {
  import opened Basics

  const CONTINUATION: byte := 0
  const TEXT_FRAME: byte := 1
  const BINARY_FRAME: byte := 2
  const CLOSE: byte := 8
  const PING: byte := 9
  const PONG: byte := 10

  /** The key that sendData always uses. */
  const MASKING_KEY: seq<byte> := [0x12, 0x34, 0x56, 0x78]

  // ---- Exclusive or, bit by bit ---------------------------------------------------

  function XorBits(a: nat, b: nat, bits: nat): (r: nat) {
    if bits == 0 then 0 else (a % 2 + b % 2) % 2 + 2 * XorBits(a / 2, b / 2, bits - 1)
  }

  function Pow2(n: nat): nat { if n == 0 then 1 else 2 * Pow2(n - 1) }

  lemma {:induction false} XorBitsBound(a: nat, b: nat, bits: nat)
    ensures XorBits(a, b, bits) < Pow2(bits)
  {
    if bits > 0 { XorBitsBound(a / 2, b / 2, bits - 1); }
  }

  lemma {:induction false} BitSplit(low: nat, high: nat)
    requires low < 2
    ensures (low + 2 * high) % 2 == low && (low + 2 * high) / 2 == high
  {
  }

  lemma {:induction false} BitTwice(p: nat, q: nat)
    requires p < 2 && q < 2
    ensures ((p + q) % 2 + q) % 2 == p
  {
  }

  lemma {:induction false} XorBitsTwice(a: nat, b: nat, bits: nat)
    requires a < Pow2(bits)
    ensures XorBits(XorBits(a, b, bits), b, bits) == a
  {
    if bits > 0 {
      var low, high := (a % 2 + b % 2) % 2, XorBits(a / 2, b / 2, bits - 1);
      XorBitsTwice(a / 2, b / 2, bits - 1);
      BitSplit(low, high);
      BitTwice(a % 2, b % 2);
    }
  }

  function Xor(a: byte, b: byte): byte {
    XorBitsBound(a, b, 8);
    assert Pow2(8) == 256;
    XorBits(a, b, 8)
  }

  lemma {:induction false} XorTwice(a: byte, b: byte)
    ensures Xor(Xor(a, b), b) == a
  {
    assert Pow2(8) == 256;
    XorBitsTwice(a, b, 8);
  }

  /** Section 5.3: octet i is combined with octet i MOD 4 of the key. */
  function Mask(payload: seq<byte>, key: seq<byte>): (r: seq<byte>)
    requires |key| == 4
    ensures |r| == |payload|
  {
    seq(|payload|, i requires 0 <= i < |payload| => Xor(payload[i], key[i % 4]))
  }

  lemma {:induction false} MaskTwice(payload: seq<byte>, key: seq<byte>)
    requires |key| == 4
    ensures Mask(Mask(payload, key), key) == payload
  {
    forall i | 0 <= i < |payload|
      ensures Mask(Mask(payload, key), key)[i] == payload[i]
    {
      XorTwice(payload[i], key[i % 4]);
    }
  }

  // ---- Big-endian numbers -----------------------------------------------------------

  function FromBigEndian(s: seq<byte>): nat {
    if s == [] then 0 else FromBigEndian(s[..|s| - 1]) * 256 + s[|s| - 1]
  }

  function ToBigEndian(n: nat, size: nat): (s: seq<byte>)
    ensures |s| == size
  {
    if size == 0 then [] else ToBigEndian(n / 256, size - 1) + [n % 256]
  }

  function Pow256(n: nat): nat { if n == 0 then 1 else 256 * Pow256(n - 1) }

  lemma {:induction false} BigEndianRoundTrip(n: nat, size: nat)
    requires n < Pow256(size)
    ensures FromBigEndian(ToBigEndian(n, size)) == n
  {
    if size > 0 {
      BigEndianRoundTrip(n / 256, size - 1);
      var s := ToBigEndian(n, size);
      assert s[..size - 1] == ToBigEndian(n / 256, size - 1);
    }
  }

  lemma {:induction false} BigEndianBound(s: seq<byte>)
    ensures FromBigEndian(s) < Pow256(|s|)
  {
    if s != [] { BigEndianBound(s[..|s| - 1]); }
  }

  // ---- Reading one frame --------------------------------------------------------------

  datatype Frame = Frame(fin: bool, opcode: byte, masked: bool, payload: seq<byte>)

  function ExtendedSize(n0: int): nat {
    if n0 == 126 then 2 else if n0 == 127 then 8 else 0
  }

  function HeaderSize(rx: seq<byte>): nat
    requires |rx| >= 2
  {
    2 + ExtendedSize(rx[1] % 128) + if rx[1] >= 128 then 4 else 0
  }

  function PayloadSize(rx: seq<byte>): nat
    requires |rx| >= 2 && |rx| >= HeaderSize(rx)
  {
    var ext := ExtendedSize(rx[1] % 128);
    if ext == 0 then rx[1] % 128 else FromBigEndian(rx[2..2 + ext])
  }

  /** A whole frame is at the front of the buffer. */
  predicate Complete(rx: seq<byte>) {
    |rx| >= 2 && |rx| >= HeaderSize(rx) && |rx| >= HeaderSize(rx) + PayloadSize(rx)
  }

  function FrameSize(rx: seq<byte>): (n: nat)
    requires Complete(rx)
    ensures 2 <= n <= |rx|
  {
    HeaderSize(rx) + PayloadSize(rx)
  }

  function FrameOf(rx: seq<byte>): Frame
    requires Complete(rx)
  {
    var raw := rx[HeaderSize(rx)..FrameSize(rx)];
    var masked := rx[1] >= 128;
    Frame(rx[0] >= 128, rx[0] % 16, masked,
          if masked then Mask(raw, rx[HeaderSize(rx) - 4..HeaderSize(rx)]) else raw)
  }

  /** More bytes behind a whole frame do not change it. */
  lemma {:induction false} FrameIsStable(rx: seq<byte>, more: seq<byte>)
    requires Complete(rx)
    ensures Complete(rx + more) && FrameSize(rx + more) == FrameSize(rx) && FrameOf(rx + more) == FrameOf(rx)
  {
    var all := rx + more;
    assert HeaderSize(all) == HeaderSize(rx);
    var ext := ExtendedSize(rx[1] % 128);
    assert all[2..2 + ext] == rx[2..2 + ext];
    assert PayloadSize(all) == PayloadSize(rx);
    assert all[HeaderSize(rx)..FrameSize(rx)] == rx[HeaderSize(rx)..FrameSize(rx)];
    if rx[1] >= 128 {
      assert all[HeaderSize(rx) - 4..HeaderSize(rx)] == rx[HeaderSize(rx) - 4..HeaderSize(rx)];
    }
  }

  /** The frames of a stream, in order. */
  function Frames(stream: seq<byte>): seq<Frame>
    decreases |stream|
  {
    if Complete(stream) then [FrameOf(stream)] + Frames(stream[FrameSize(stream)..]) else []
  }

  /** The bytes behind the last whole frame. */
  function Rest(stream: seq<byte>): seq<byte>
    decreases |stream|
  {
    if Complete(stream) then Rest(stream[FrameSize(stream)..]) else stream
  }

  /** Decoding can stop anywhere and go on when more bytes are there. */
  lemma {:induction false} FramesOfConcatenation(a: seq<byte>, b: seq<byte>)
    ensures Frames(a + b) == Frames(a) + Frames(Rest(a) + b)
    ensures Rest(a + b) == Rest(Rest(a) + b)
    decreases |a|
  {
    if Complete(a) {
      FrameIsStable(a, b);
      var n := FrameSize(a);
      assert (a + b)[n..] == a[n..] + b;
      FramesOfConcatenation(a[n..], b);
    }
  }

  /** Section 5.2: the most significant bit of a 64-bit length is 0. */
  const MAX_LENGTH: nat := 0x8000_0000_0000_0000

  // ---- Writing one frame --------------------------------------------------------------

  /** The second header byte without its mask bit, and the extended length. */
  function LengthField(n: nat): (s: seq<byte>)
    requires n < MAX_LENGTH
    ensures |s| >= 1 && s[0] < 128
  {
    if n < 126 then [n] else if n < 65536 then [126] + ToBigEndian(n, 2) else [127] + ToBigEndian(n, 8)
  }

  function Header(opcode: byte, mask: bool, n: nat): seq<byte>
    requires opcode < 16 && n < MAX_LENGTH
  {
    var len := LengthField(n);
    [0x80 + opcode] + [len[0] + if mask then 0x80 else 0] + len[1..] + if mask then MASKING_KEY else []
  }

  function Encode(opcode: byte, mask: bool, payload: seq<byte>): seq<byte>
    requires opcode < 16 && |payload| < MAX_LENGTH
  {
    Header(opcode, mask, |payload|) + if mask then Mask(payload, MASKING_KEY) else payload
  }

  /** The close frame: an empty payload under a mask of zeros. */
  const CLOSE_FRAME: seq<byte> := [0x88, 0x80, 0, 0, 0, 0]

  lemma {:induction false} Pow256Values()
    ensures Pow256(2) == 65536 && Pow256(8) == 0x1_0000_0000_0000_0000
  {
    assert Pow256(4) == 0x1_0000_0000;
  }

  lemma {:induction false} LengthReads(n: nat)
    requires n < MAX_LENGTH
    ensures var len := LengthField(n);
            && ExtendedSize(len[0]) == |len| - 1
            && n == if |len| == 1 then len[0] else FromBigEndian(len[1..])
  {
    Pow256Values();
    BigEndianRoundTrip(n, if n < 65536 then 2 else 8);
  }

  lemma {:induction false} HeaderParts(opcode: byte, mask: bool, n: nat)
    requires opcode < 16 && n < MAX_LENGTH
    ensures var header, len := Header(opcode, mask, n), LengthField(n);
            && |header| == 1 + |len| + (if mask then 4 else 0)
            && header[0] == 0x80 + opcode && header[1] == len[0] + (if mask then 0x80 else 0)
            && header[2..1 + |len|] == len[1..]
            && (mask ==> header[|header| - 4..] == MASKING_KEY)
  {
  }

  lemma {:induction false} SliceOfSum(a: seq<byte>, b: seq<byte>, i: nat, j: nat)
    requires i <= j <= |a|
    ensures (a + b)[i..j] == a[i..j]
  {
  }

  lemma {:induction false} HeaderReads(opcode: byte, mask: bool, n: nat, body: seq<byte>)
    requires opcode < 16 && n < MAX_LENGTH && |body| >= n
    ensures var rx := Header(opcode, mask, n) + body;
            && Complete(rx) && HeaderSize(rx) == |Header(opcode, mask, n)| && PayloadSize(rx) == n
            && rx[0] == 0x80 + opcode && (rx[1] >= 128 <==> mask)
            && (mask ==> rx[HeaderSize(rx) - 4..HeaderSize(rx)] == MASKING_KEY)
  {
    var header, len := Header(opcode, mask, n), LengthField(n);
    var rx := header + body;
    HeaderParts(opcode, mask, n);
    LengthReads(n);
    assert rx[1] % 128 == len[0] && HeaderSize(rx) == |header|;
    SliceOfSum(header, body, 2, 1 + |len|);
    if mask {
      SliceOfSum(header, body, |header| - 4, |header|);
      assert header[|header| - 4..|header|] == header[|header| - 4..];
    }
  }

  lemma {:induction false} FrameReads(opcode: byte, mask: bool, body: seq<byte>, more: seq<byte>)
    requires opcode < 16 && |body| < MAX_LENGTH
    ensures var header := Header(opcode, mask, |body|);
            var rx := header + (body + more);
            && Complete(rx) && FrameSize(rx) == |header| + |body|
            && FrameOf(rx) == Frame(true, opcode, mask, if mask then Mask(body, MASKING_KEY) else body)
  {
    var header := Header(opcode, mask, |body|);
    var rx := header + (body + more);
    HeaderReads(opcode, mask, |body|, body + more);
    assert rx[|header|..|header| + |body|] == body;
  }

  /** Reading undoes writing, whatever follows. */
  lemma {:induction false} EncodeDecodes(opcode: byte, mask: bool, payload: seq<byte>, more: seq<byte>)
    requires opcode < 16 && |payload| < MAX_LENGTH
    ensures var rx := Encode(opcode, mask, payload) + more;
            && Complete(rx)
            && FrameSize(rx) == |Encode(opcode, mask, payload)|
            && FrameOf(rx) == Frame(true, opcode, mask, payload)
  {
    var header, body := Header(opcode, mask, |payload|), if mask then Mask(payload, MASKING_KEY) else payload;
    Associative(header, body, more);
    FrameReads(opcode, mask, body, more);
    MaskTwice(payload, MASKING_KEY);
  }

  /** Section 5.2: "the minimal number of bytes MUST be used to encode the length".  No frame with
      the same payload size and mask bit is shorter than the one that sendData writes. */
  lemma {:induction false} EncodeIsShortest(opcode: byte, mask: bool, payload: seq<byte>, rx: seq<byte>)
    requires opcode < 16 && |payload| < MAX_LENGTH
    requires Complete(rx) && PayloadSize(rx) == |payload| && (rx[1] >= 128 <==> mask)
    ensures |Encode(opcode, mask, payload)| <= FrameSize(rx)
  {
    Pow256Values();
    var ext := ExtendedSize(rx[1] % 128);
    BigEndianBound(rx[2..2 + ext]);
  }

  lemma {:induction false} CloseFrameDecodes(more: seq<byte>)
    ensures var rx := CLOSE_FRAME + more;
            Complete(rx) && FrameSize(rx) == 6 && FrameOf(rx) == Frame(true, CLOSE, true, [])
  {
  }

  // ---- Writing several frames -----------------------------------------------------------

  /** A frame put into the transmit buffer: one of sendData, or the one of close. */
  datatype OutFrame = Out(opcode: byte, payload: seq<byte>) | OutClose

  predicate ValidOut(o: OutFrame) {
    o.Out? ==> o.opcode < 16 && |o.payload| < MAX_LENGTH
  }

  type Outgoing = o: OutFrame | ValidOut(o) witness OutClose

  function EncodeOut(mask: bool, o: Outgoing): seq<byte> {
    match o
    case Out(opcode, payload) => Encode(opcode, mask, payload)
    case OutClose => CLOSE_FRAME
  }

  function EncodeAll(mask: bool, outs: seq<Outgoing>): seq<byte> {
    if outs == [] then [] else EncodeOut(mask, outs[0]) + EncodeAll(mask, outs[1..])
  }

  /** The frame that the peer reads. */
  function AsFrame(mask: bool, o: Outgoing): Frame {
    match o
    case Out(opcode, payload) => Frame(true, opcode, mask, payload)
    case OutClose => Frame(true, CLOSE, true, [])
  }

  function AsFrames(mask: bool, outs: seq<Outgoing>): seq<Frame> {
    if outs == [] then [] else [AsFrame(mask, outs[0])] + AsFrames(mask, outs[1..])
  }

  lemma {:induction false} EncodeAllConcat(mask: bool, a: seq<Outgoing>, b: seq<Outgoing>)
    ensures EncodeAll(mask, a + b) == EncodeAll(mask, a) + EncodeAll(mask, b)
  {
    if a == [] {
      assert a + b == b;
    } else {
      EncodeAllConcat(mask, a[1..], b);
      assert (a + b)[0] == a[0] && (a + b)[1..] == a[1..] + b;
      Associative(EncodeOut(mask, a[0]), EncodeAll(mask, a[1..]), EncodeAll(mask, b));
    }
  }

  lemma {:induction false} EncodeOutDecodes(mask: bool, o: Outgoing, more: seq<byte>)
    ensures var rx := EncodeOut(mask, o) + more;
            && Complete(rx) && FrameOf(rx) == AsFrame(mask, o)
            && FrameSize(rx) == |EncodeOut(mask, o)| && rx[FrameSize(rx)..] == more
  {
    if o.Out? {
      EncodeDecodes(o.opcode, mask, o.payload, more);
    } else {
      CloseFrameDecodes(more);
    }
  }

  /** A stream of written frames reads as those frames, with nothing left over. */
  lemma {:induction false} EncodeAllDecodes(mask: bool, outs: seq<Outgoing>)
    ensures Frames(EncodeAll(mask, outs)) == AsFrames(mask, outs)
    ensures Rest(EncodeAll(mask, outs)) == []
  {
    if outs != [] {
      EncodeOutDecodes(mask, outs[0], EncodeAll(mask, outs[1..]));
      EncodeAllDecodes(mask, outs[1..]);
    }
  }
}
