/** base64Encode and base64Decode of Type/Buffer.cpp, against section 4 of RFC 4648. */
module Base64 {
  import opened Basics
  import opened Modular

  type sextet = v: int | 0 <= v < 64

  const UPPER := "ABCDEFGHIJKLMNOPQRSTUVWXYZ"
  const LOWER := "abcdefghijklmnopqrstuvwxyz"
  const OTHER := "0123456789+/"

  const BASE64_STR := UPPER + LOWER + OTHER

  // ---- Section 4 of RFC 4648 -----------------------------------------------------------------

  /** Table 1. */
  function Digit(v: sextet): char {
    if v < 26 then 'A' + v as char
    else if v < 52 then 'a' + (v - 26) as char
    else if v < 62 then '0' + (v - 52) as char
    else if v == 62 then '+' else '/'
  }

  /** Table 1 read backwards; -1 for other characters. */
  function Value(c: char): (v: int)
    ensures -1 <= v < 64
  {
    if 'A' <= c <= 'Z' then (c - 'A') as int
    else if 'a' <= c <= 'z' then (c - 'a') as int + 26
    else if '0' <= c <= '9' then (c - '0') as int + 52
    else if c == '+' then 62 else if c == '/' then 63 else -1
  }

  /** The string in the code is Table 1. */
  lemma {:induction false} Alphabet(v: sextet)
    ensures |BASE64_STR| == 64 && BASE64_STR[v] == Digit(v)
  {
    if v < 26 {
      assert BASE64_STR[v] == UPPER[v];
    } else if v < 52 {
      assert BASE64_STR[v] == LOWER[v - 26];
    } else {
      assert BASE64_STR[v] == OTHER[v - 52];
    }
  }

  lemma {:induction false} ValueOfDigit(v: sextet)
    ensures Value(Digit(v)) == v
  {
  }

  /** The characters of the table are those with a value. */
  lemma {:induction false} DigitOfValue(c: char)
    requires Value(c) >= 0
    ensures Digit(Value(c)) == c
  {
  }

  /** Three bytes become four characters; one or two bytes at the end become two or three, with
      padding. */
  function Encoding(data: seq<byte>): (s: string)
    ensures |s| == 4 * ((|data| + 2) / 3)
  {
    if data == [] then []
    else if |data| == 1 then [Digit(data[0] / 4), Digit(data[0] % 4 * 16), '=', '=']
    else if |data| == 2 then
      [Digit(data[0] / 4), Digit(data[0] % 4 * 16 + data[1] / 16), Digit(data[1] % 16 * 4), '=']
    else
      [Digit(data[0] / 4), Digit(data[0] % 4 * 16 + data[1] / 16), Digit(data[1] % 16 * 4 + data[2] / 64), Digit(data[2] % 64)]
      + Encoding(data[3..])
  }

  /** How many characters come before the first that is not in the table. */
  function Valid(s: string): (n: nat)
    ensures n <= |s| && (forall k | 0 <= k < n :: Value(s[k]) >= 0) && (n < |s| ==> Value(s[n]) < 0)
  {
    if s == [] || Value(s[0]) < 0 then 0 else 1 + Valid(s[1..])
  }

  /** Four characters of the table give three bytes back, two or three at the end give one or two. */
  function Decoding(s: string): seq<byte>
    requires forall k | 0 <= k < |s| :: Value(s[k]) >= 0
  {
    if |s| < 2 then []
    else
      var a := Value(s[0]) * 4 + Value(s[1]) / 16;
      if |s| == 2 then [a]
      else
        var b := Value(s[1]) % 16 * 16 + Value(s[2]) / 4;
        if |s| == 3 then [a, b]
        else [a, b, Value(s[2]) % 4 * 64 + Value(s[3])] + Decoding(s[4..])
  }

  /** What base64Decode makes of any text: it stops at the first character that is not in the table. */
  function Decoded(s: string): seq<byte> { Decoding(s[..Valid(s)]) }

  // ---- Groups as numbers -------------------------------------------------------------------------

  /** Characters of the table as digits of a number. */
  function NumberOf(s: string): int {
    if s == [] then 0 else NumberOf(s[..|s| - 1]) * 64 + Value(s[|s| - 1])
  }

  /** Three bytes and their four characters are the same number of 24 bits; at the end, one byte is followed by four
      zero bits and two bytes by two. */
  lemma {:induction false} EncodingIsNumber(a: byte, b: byte, c: byte, rest: seq<byte>)
    ensures var group := Encoding([a, b, c] + rest);
            NumberOf(group[..4]) == 65536 * a + 256 * b + c && group[4..] == Encoding(rest)
    ensures NumberOf(Encoding([a])[..2]) == 16 * a && Encoding([a])[2..] == "=="
    ensures NumberOf(Encoding([a, b])[..3]) == 4 * (256 * a + b) && Encoding([a, b])[3..] == "="
  {
    var v, w, x, y := a / 4, a % 4 * 16 + b / 16, b % 16 * 4 + c / 64, c % 64;
    assert ([a, b, c] + rest)[3..] == rest;
    NumberOfFour(v, w, x, y);
    NumberOfFour(v, a % 4 * 16, 0, 0);
    NumberOfFour(v, w, b % 16 * 4, 0);
    assert Encoding([a, b, c] + rest)[..4] == [Digit(v), Digit(w), Digit(x), Digit(y)];
    assert Encoding([a])[..2] == [Digit(v), Digit(a % 4 * 16)];
    assert Encoding([a, b])[..3] == [Digit(v), Digit(w), Digit(b % 16 * 4)];
  }

  lemma {:induction false} NumberOfFour(v: sextet, w: sextet, x: sextet, y: sextet)
    ensures NumberOf([Digit(v), Digit(w)]) == 64 * v + w
    ensures NumberOf([Digit(v), Digit(w), Digit(x)]) == 64 * (64 * v + w) + x
    ensures NumberOf([Digit(v), Digit(w), Digit(x), Digit(y)]) == 64 * (64 * (64 * v + w) + x) + y
  {
    ValueOfDigit(v);
    ValueOfDigit(w);
    ValueOfDigit(x);
    ValueOfDigit(y);
    var nothing: string := [];
    assert [Digit(v)][..0] == nothing && NumberOf(nothing) == 0 && NumberOf([Digit(v)]) == v;
    assert [Digit(v), Digit(w)][..1] == [Digit(v)];
    assert [Digit(v), Digit(w), Digit(x)][..2] == [Digit(v), Digit(w)];
    assert [Digit(v), Digit(w), Digit(x), Digit(y)][..3] == [Digit(v), Digit(w), Digit(x)];
  }

  /** Section 10 of RFC 4648. */
  lemma {:induction false} Vectors()
    ensures Encoding([]) == "" && Encoding([0x66]) == "Zg==" && Encoding([0x66, 0x6F]) == "Zm8="
    ensures Encoding([0x66, 0x6F, 0x6F]) == "Zm9v"
  {
    assert [0x66, 0x6F, 0x6F][3..] == [];
  }

  /** Decoding stops at the first character that is not in the table, whatever follows. */
  lemma {:induction false} DecodedStops(s: string, c: char, t: string)
    requires (forall k | 0 <= k < |s| :: Value(s[k]) >= 0) && Value(c) < 0
    ensures Decoded(s + [c] + t) == Decoding(s)
  {
    assert s + [c] + t == s + ([c] + t);
    ValidPrefix(s, [c] + t);
    assert (s + [c] + t)[..|s|] == s;
  }

  // ---- The round trip ----------------------------------------------------------------------------

  lemma {:induction false} ValidPrefix(s: string, t: string)
    requires forall k | 0 <= k < |s| :: Value(s[k]) >= 0
    ensures Valid(s + t) == |s| + Valid(t)
  {
    if s == [] {
      assert s + t == t;
    } else {
      assert (s + t)[1..] == s[1..] + t;
      ValidPrefix(s[1..], t);
    }
  }

  lemma {:induction false} DecodedGroup(group: string, rest: string)
    requires |group| == 4 && forall k | 0 <= k < 4 :: Value(group[k]) >= 0
    ensures Decoded(group + rest) == Decoding(group) + Decoded(rest)
  {
    ValidPrefix(group, rest);
    var s := (group + rest)[..4 + Valid(rest)];
    assert s[..4] == group && s[4..] == rest[..Valid(rest)];
    assert group[4..] == [];
  }

  lemma {:induction false} SextetsOfBytes(a: byte, b: byte, c: byte)
    ensures a / 4 * 4 + (a % 4 * 16 + b / 16) / 16 == a
    ensures (a % 4 * 16 + b / 16) % 16 * 16 + (b % 16 * 4 + c / 64) / 4 == b
    ensures (b % 16 * 4 + c / 64) % 4 * 64 + c % 64 == c
  {
  }

  lemma {:induction false} DigitsInverse(v: sextet, w: sextet, x: sextet, y: sextet, a: int, b: int, c: int)
    requires v * 4 + w / 16 == a && w % 16 * 16 + x / 4 == b && x % 4 * 64 + y == c
    ensures Decoding([Digit(v), Digit(w), Digit(x), Digit(y)]) == [a, b, c]
  {
    DecodingFour(v, w, x, y);
  }

  lemma {:induction false} DecodingFour(v: sextet, w: sextet, x: sextet, y: sextet)
    ensures Decoding([Digit(v), Digit(w), Digit(x), Digit(y)]) == [v * 4 + w / 16, w % 16 * 16 + x / 4, x % 4 * 64 + y]
    ensures Decoding([Digit(v), Digit(w), Digit(x)]) == [v * 4 + w / 16, w % 16 * 16 + x / 4]
    ensures Decoding([Digit(v), Digit(w)]) == [v * 4 + w / 16]
  {
    ValueOfDigit(v);
    ValueOfDigit(w);
    ValueOfDigit(x);
    ValueOfDigit(y);
  }

  /** Padding is not in the table. */
  lemma {:induction false} DecodedEnd(digits: string, padding: string)
    requires (forall k | 0 <= k < |digits| :: Value(digits[k]) >= 0) && padding != [] && padding[0] == '='
    ensures Decoded(digits + padding) == Decoding(digits)
  {
    ValidPrefix(digits, padding);
    assert (digits + padding)[..|digits|] == digits;
  }

  lemma {:induction false} OneInverse(a: byte)
    ensures Decoded(Encoding([a])) == [a]
  {
    var v, w := a / 4, a % 4 * 16;
    assert Encoding([a]) == [Digit(v), Digit(w)] + ['=', '='];
    DecodingFour(v, w, 0, 0);
    ValueOfDigit(v);
    ValueOfDigit(w);
    DecodedEnd([Digit(v), Digit(w)], ['=', '=']);
  }

  lemma {:induction false} TwoInverse(a: byte, b: byte)
    ensures Decoded(Encoding([a, b])) == [a, b]
  {
    var v, w, x := a / 4, a % 4 * 16 + b / 16, b % 16 * 4;
    SextetsOfBytes(a, b, 0);
    TwoDigits(a, b);
    DecodingFour(v, w, x, 0);
    ValueOfDigit(v);
    ValueOfDigit(w);
    ValueOfDigit(x);
    DecodedEnd([Digit(v), Digit(w), Digit(x)], ['=']);
  }

  lemma {:induction false} TwoDigits(a: byte, b: byte)
    ensures Encoding([a, b]) == [Digit(a / 4), Digit(a % 4 * 16 + b / 16), Digit(b % 16 * 4)] + ['=']
  {
  }

  /** Decoding what was encoded gives every byte sequence back. */
  lemma {:induction false} DecodeEncode(data: seq<byte>)
    ensures Decoded(Encoding(data)) == data
  {
    if |data| == 1 {
      OneInverse(data[0]);
      assert data == [data[0]];
    } else if |data| == 2 {
      TwoInverse(data[0], data[1]);
      assert data == [data[0], data[1]];
    } else if |data| >= 3 {
      GroupInverse(data);
      DecodeEncode(data[3..]);
    }
  }

  lemma {:induction false} GroupInverse(data: seq<byte>)
    requires |data| >= 3
    ensures Decoded(Encoding(data)) == data[..3] + Decoded(Encoding(data[3..]))
  {
    var (a, b, c) := (data[0], data[1], data[2]);
    var v, w, x, y := a / 4, a % 4 * 16 + b / 16, b % 16 * 4 + c / 64, c % 64;
    SextetsOfBytes(a, b, c);
    DigitsInverse(v, w, x, y, a, b, c);
    DigitsAreValid(v, w, x, y);
    DecodedGroup([Digit(v), Digit(w), Digit(x), Digit(y)], Encoding(data[3..]));
    assert data[..3] == [a, b, c];
  }

  lemma {:induction false} DigitsAreValid(v: sextet, w: sextet, x: sextet, y: sextet)
    ensures var group := [Digit(v), Digit(w), Digit(x), Digit(y)];
            forall k | 0 <= k < 4 :: Value(group[k]) >= 0
  {
    ValueOfDigit(v);
    ValueOfDigit(w);
    ValueOfDigit(x);
    ValueOfDigit(y);
  }

  // ---- The accumulators, bit by bit ----------------------------------------------------------------

  /** The encoder with "k" bits left over: what it still appends for the bytes to come. */
  function EncodeFrom(bits: nat, k: nat, rest: seq<byte>): string
    requires (k == 0 && bits == 0) || (k == 2 && bits < 4) || (k == 4 && bits < 16)
    decreases rest
  {
    if rest == [] then
      if k == 0 then [] else if k == 2 then [Digit(bits * 16), '=', '='] else [Digit(bits * 4), '=']
    else
      var c := rest[0];
      if k == 0 then [Digit(c / 4)] + EncodeFrom(c % 4, 2, rest[1..])
      else if k == 2 then [Digit(bits * 16 + c / 16)] + EncodeFrom(c % 16, 4, rest[1..])
      else [Digit(bits * 4 + c / 64), Digit(c % 64)] + EncodeFrom(0, 0, rest[1..])
  }

  /** Bit by bit it is the grouping of the standard. */
  lemma {:induction false} EncodeFromIsEncoding(data: seq<byte>)
    ensures EncodeFrom(0, 0, data) == Encoding(data)
  {
    if |data| == 1 {
      assert data[1..] == [];
    } else if |data| == 2 {
      var one := data[1..];
      assert one[0] == data[1] && one[1..] == [];
      assert EncodeFrom(data[0] % 4, 2, one) == [Digit(data[0] % 4 * 16 + data[1] / 16)] + EncodeFrom(data[1] % 16, 4, one[1..]);
    } else if |data| >= 3 {
      EncodeFromGroup(data);
      EncodeFromIsEncoding(data[3..]);
    }
  }

  lemma {:induction false} EncodeFromGroup(data: seq<byte>)
    requires |data| >= 3
    ensures EncodeFrom(0, 0, data) == Encoding(data[..3]) + EncodeFrom(0, 0, data[3..])
  {
    var (a, b, c) := (data[0], data[1], data[2]);
    var one := data[1..];
    var two := one[1..];
    assert one[0] == b && two[0] == c && two[1..] == data[3..];
    assert EncodeFrom(b % 16, 4, two) == [Digit(b % 16 * 4 + c / 64), Digit(c % 64)] + EncodeFrom(0, 0, data[3..]);
    assert EncodeFrom(a % 4, 2, one) == [Digit(a % 4 * 16 + b / 16)] + EncodeFrom(b % 16, 4, two);
    assert data[..3][3..] == [];
  }

  /** The decoder with "k" bits left over: what it still appends for the characters to come. */
  function DecodeFrom(bits: nat, k: nat, rest: string): seq<byte>
    requires (k == 0 && bits == 0) || (k == 2 && bits < 4) || (k == 4 && bits < 16) || (k == 6 && bits < 64)
    decreases rest
  {
    if rest == [] || Value(rest[0]) < 0 then []
    else
      var v := Value(rest[0]);
      if k == 0 then DecodeFrom(v, 6, rest[1..])
      else if k == 6 then [bits * 4 + v / 16] + DecodeFrom(v % 16, 4, rest[1..])
      else if k == 4 then [bits * 16 + v / 4] + DecodeFrom(v % 4, 2, rest[1..])
      else [bits * 64 + v] + DecodeFrom(0, 0, rest[1..])
  }

  lemma {:induction false} DecodeFromIsDecoded(s: string)
    ensures DecodeFrom(0, 0, s) == Decoded(s)
    decreases |s|
  {
    if Valid(s) >= 4 {
      DecodeFromGroup(s);
      DecodedFirst(s);
      DecodeFromIsDecoded(s[4..]);
    } else {
      DecodeFromEnd(s);
    }
  }

  /** The first group of four. */
  lemma {:induction false} DecodeFromGroup(s: string)
    requires Valid(s) >= 4
    ensures DecodeFrom(0, 0, s) == Decoding(s[..4]) + DecodeFrom(0, 0, s[4..])
  {
    ValidTail(s);
    ValidTail(s[1..]);
    ValidTail(s[2..]);
    DecodeFromPairs(s);
    var c, d := Value(s[2]), Value(s[3]);
    assert s[2..][1..] == s[3..] && s[3..][1..] == s[4..];
    assert DecodeFrom(c % 4, 2, s[3..]) == [c % 4 * 64 + d] + DecodeFrom(0, 0, s[4..]);
    assert s[..4][4..] == [];
  }

  lemma {:induction false} DecodedFirst(s: string)
    requires Valid(s) >= 4
    ensures Decoded(s) == Decoding(s[..4]) + Decoded(s[4..])
  {
    assert s == s[..4] + s[4..];
    DecodedGroup(s[..4], s[4..]);
  }

  lemma {:induction false} DecodeFromEnd(s: string)
    requires Valid(s) < 4
    ensures DecodeFrom(0, 0, s) == Decoded(s)
  {
    var n := Valid(s);
    if n >= 1 { ValidTail(s); }
    if n >= 2 {
      ValidTail(s[1..]);
      DecodeFromPairs(s);
    }
    if n >= 3 { ValidTail(s[2..]); }
  }

  lemma {:induction false} ValidTail(s: string)
    requires Valid(s) > 0
    ensures Valid(s[1..]) == Valid(s) - 1
  {
  }

  lemma {:induction false} DecodeFromPairs(s: string)
    requires Valid(s) >= 2
    ensures var a := Value(s[0]) * 4 + Value(s[1]) / 16;
            DecodeFrom(0, 0, s) == [a] + DecodeFrom(Value(s[1]) % 16, 4, s[2..])
  {
    assert s[1..][1..] == s[2..];
    assert DecodeFrom(Value(s[0]), 6, s[1..]) == [Value(s[0]) * 4 + Value(s[1]) / 16] + DecodeFrom(Value(s[1]) % 16, 4, s[2..]);
  }

  // ---- The wrapping accumulator --------------------------------------------------------------------

  const WORD := 0x1_0000_0000

  /** A 32-bit int. */
  function Wrap(x: int): (w: int)
    ensures -0x8000_0000 <= w < 0x8000_0000
  {
    (x + 0x8000_0000) % WORD - 0x8000_0000
  }

  /** 2^k for the shifts in use. */
  function Scale(k: int): (p: int)
    ensures p > 0
  {
    if k == 2 then 4 else if k == 4 then 16 else if k == 6 then 64 else if k == 8 then 256
    else if k == 10 then 1024 else if k == 12 then 4096 else 1
  }

  /** (val >> shift) & (2^width - 1); a shift to the right rounds down. */
  function Bits(val: int, shift: int, width: int): (bits: int)
    ensures 0 <= bits < Scale(width)
  {
    val / Scale(shift) % Scale(width)
  }

  /** The low 12 bits are those of the unbounded number. */
  predicate SameLow(x: int, y: int) { x % 4096 == y % 4096 }

  /** Wrapping does not touch the bits that are read. */
  lemma {:induction false} WrapKeepsLow(x: int)
    ensures SameLow(Wrap(x), x)
  {
    var q := (x + 0x8000_0000) / WORD;
    assert x == Wrap(x) + 4096 * (0x10_0000 * q);
    AddMultiple(Wrap(x), 4096, 0x10_0000 * q);
  }

  lemma {:induction false} SameLowSum(x: int, y: int, c: int)
    requires SameLow(x, y)
    ensures SameLow(x + c, y + c)
  {
    var q := x / 4096 - y / 4096;
    assert x + c == y + c + 4096 * q;
    AddMultiple(y + c, 4096, q);
  }

  lemma {:induction false} SameLowShift(x: int, y: int, n: int)
    requires SameLow(x, y)
    ensures SameLow(x * n, y * n)
  {
    var q := x / 4096 - y / 4096;
    assert x == y + 4096 * q;
    assert x * n == y * n + 4096 * (q * n);
    AddMultiple(y * n, 4096, q * n);
  }

  /** (val << shift) + c, as two 32-bit operations. */
  function Push(val: int, shift: int, c: int): int { Wrap(Wrap(val * Scale(shift)) + c) }

  /** The wrapping accumulator follows the unbounded one. */
  lemma {:induction false} PushKeepsLow(val: int, exact: int, shift: int, c: int)
    requires SameLow(val, exact)
    ensures SameLow(Push(val, shift, c), exact * Scale(shift) + c)
  {
    var x := val * Scale(shift);
    SameLowShift(val, exact, Scale(shift));
    WrapKeepsLow(x);
    SameLowSum(Wrap(x), exact * Scale(shift), c);
    WrapKeepsLow(Wrap(x) + c);
  }

  /** And the same bits come out of both. */
  lemma {:induction false} SameBits(x: int, y: int, shift: int, width: int)
    requires SameLow(x, y) && (shift == 0 || shift == 2 || shift == 4 || shift == 6) && (width == 6 || width == 8) && shift + width <= 12
    ensures Bits(x, shift, width) == Bits(y, shift, width)
  {
    var q := x / 4096 - y / 4096;
    assert x == y + 4096 * q;
    var n := 4096 / Scale(shift);
    BitsOfSum(y, Scale(shift), Scale(width), n, n / Scale(width), q);
  }

  lemma {:induction false} BitsOfSum(y: int, p: int, r: int, n: int, m: int, q: int)
    requires 0 < p && 0 < r && p * n == 4096 && r * m == n
    ensures (y + 4096 * q) / p % r == y / p % r
  {
    Reassociate(p, n, q);
    AddMultiple(y, p, n * q);
    Reassociate(r, m, q);
    AddMultiple(y / p, r, m * q);
  }

  // ---- The loops -------------------------------------------------------------------------------------

  /** What the inner loop of the encoder appends. */
  function Sextets(exact: int, valb: int): string
    decreases valb + 6
  {
    if valb < 0 then [] else [Digit(Bits(exact, valb, 6))] + Sextets(exact, valb - 6)
  }

  /** Shifting out what is above "r" values of p. */
  lemma {:induction false} Shifted(q: int, x: int, n: int, p: int, r: int)
    requires 0 < p && 0 < r && n == p * r && 0 <= x / p < r
    ensures (x + n * q) / p % r == x / p && (x + n * q) % p == x % p
  {
    Reassociate(p, r, q);
    AddMultiple(x, p, r * q);
    AddMultiple(x / p, r, q);
    DivModUnique(x / p, r, 0, x / p);
  }

  lemma {:induction false} Reassociate(p: int, r: int, q: int)
    ensures (p * r) * q == p * (r * q)
  {
  }

  lemma {:induction false} NextSextet0(exact: int, c: byte)
    ensures Bits(exact * 256 + c, 2, 6) == c / 4 && (exact * 256 + c) % 4 == c % 4
  {
    Shifted(exact, c, 256, 4, 64);
  }

  lemma {:induction false} NextSextet2(exact: int, c: byte)
    ensures Bits(exact * 256 + c, 4, 6) == exact % 4 * 16 + c / 16 && (exact * 256 + c) % 16 == c % 16
  {
    var q, bits := exact / 4, exact % 4;
    assert exact * 256 + c == bits * 256 + c + 1024 * q;
    Shifted(q, bits * 256 + c, 1024, 16, 64);
    AddMultiple(c, 16, bits * 16);
  }

  lemma {:induction false} NextSextet4(exact: int, c: byte)
    ensures Bits(exact * 256 + c, 6, 6) == exact % 16 * 4 + c / 64 && Bits(exact * 256 + c, 0, 6) == c % 64
  {
    var q, bits := exact / 16, exact % 16;
    assert exact * 256 + c == bits * 256 + c + 4096 * q;
    Shifted(q, bits * 256 + c, 4096, 64, 64);
    AddMultiple(c, 64, bits * 4);
  }

  /** The numbers of bits that whole bytes leave over. */
  predicate IsLeftOver(k: int) { k == 0 || k == 2 || k == 4 }

  /** The number of bits left over after another byte. */
  function LeftOver(k: int): int { if k == 4 then 0 else k + 2 }

  lemma {:induction false} EncodeNext(exact: int, k: int, rest: seq<byte>)
    requires IsLeftOver(k) && rest != []
    ensures var exact', k' := exact * 256 + rest[0], LeftOver(k);
            EncodeFrom(exact % Scale(k), k, rest)
            == Sextets(exact', k + 2) + EncodeFrom(exact' % Scale(k'), k', rest[1..])
  {
    var c := rest[0];
    if k == 0 {
      NextSextet0(exact, c);
    } else if k == 2 {
      NextSextet2(exact, c);
    } else {
      NextSextet4(exact, c);
      var x := exact * 256 + c;
      assert Sextets(x, 6) == [Digit(Bits(x, 6, 6))] + [Digit(Bits(x, 0, 6))];
    }
  }

  /** What is left over at the end is shifted to the front of a last digit. */
  lemma {:induction false} EncodeLast(val: int, exact: int, k: int)
    requires (k == 2 || k == 4) && SameLow(val, exact)
    ensures EncodeFrom(exact % Scale(k), k, [])
            == [Digit(Bits(Wrap(val * 256), k + 2, 6))] + if k == 2 then ['=', '='] else ['=']
  {
    WrapKeepsLow(val * 256);
    SameLowShift(val, exact, 256);
    SameBits(Wrap(val * 256), exact * 256, k + 2, 6);
    if k == 2 { NextSextet2(exact, 0); } else { NextSextet4(exact, 0); }
  }

  /** The encoder between two bytes: the accumulator follows the unbounded one, and what is out and what
      is to come make up the encoding. */
  ghost predicate Encoded(result: string, val: int, valb: int, exact: int, rest: seq<byte>, data: seq<byte>) {
    && IsLeftOver(valb + 6) && SameLow(val, exact) && 2 * (|result| % 4) == valb + 6
    && result + EncodeFrom(exact % Scale(valb + 6), valb + 6, rest) == Encoding(data)
  }

  lemma {:induction false} EncodedStart(data: seq<byte>)
    ensures Encoded([], 0, -6, 0, data, data)
  {
    EncodeFromIsEncoding(data);
  }

  lemma {:induction false} EncodedStep(
    result: string, val: int, valb: int, exact: int, rest: seq<byte>, data: seq<byte>, sextets: string, valb': int)
    requires Encoded(result, val, valb, exact, rest, data) && rest != []
    requires sextets == Sextets(exact * 256 + rest[0], valb + 8) && valb' + 6 == LeftOver(valb + 6)
    requires |sextets| == if valb == -2 then 2 else 1
    ensures Encoded(result + sextets, Push(val, 8, rest[0]), valb', exact * 256 + rest[0], rest[1..], data)
  {
    PushKeepsLow(val, exact, 8, rest[0]);
    Grows(|result|, |sextets|, valb, valb');
    EncodedJoins(result, valb + 6, exact, rest, data);
  }

  lemma {:induction false} EncodedJoins(result: string, k: int, exact: int, rest: seq<byte>, data: seq<byte>)
    requires IsLeftOver(k) && rest != [] && result + EncodeFrom(exact % Scale(k), k, rest) == Encoding(data)
    ensures var exact', k' := exact * 256 + rest[0], LeftOver(k);
            (result + Sextets(exact', k + 2)) + EncodeFrom(exact' % Scale(k'), k', rest[1..]) == Encoding(data)
  {
    var exact', k' := exact * 256 + rest[0], LeftOver(k);
    EncodeNext(exact, k, rest);
    Associative(result, Sextets(exact', k + 2), EncodeFrom(exact' % Scale(k'), k', rest[1..]));
  }

  lemma {:induction false} Grows(n: nat, m: nat, valb: int, valb': int)
    requires IsLeftOver(valb + 6) && 2 * (n % 4) == valb + 6 && m == (if valb == -2 then 2 else 1)
    requires valb' + 6 == LeftOver(valb + 6)
    ensures IsLeftOver(valb' + 6) && 2 * ((n + m) % 4) == valb' + 6
  {
  }

  /** What pads a text of that size. */
  function Padding(n: nat): string {
    if n % 4 == 0 then [] else if n % 4 == 3 then ['='] else if n % 4 == 2 then ['=', '='] else ['=', '=', '=']
  }

  /** The end of the encoder, padding aside. */
  function LastDigit(val: int, valb: int): string {
    if valb > -6 then [Digit(Bits(Wrap(val * 256), valb + 8, 6))] else []
  }

  lemma {:induction false} EncodedEnd(result: string, val: int, valb: int, exact: int, data: seq<byte>)
    requires Encoded(result, val, valb, exact, [], data)
    ensures var s := result + LastDigit(val, valb); s + Padding(|s|) == Encoding(data)
  {
    if valb > -6 {
      EncodeLast(val, exact, valb + 6);
      PadsAfter(|result|, valb + 6);
      Associative(result, LastDigit(val, valb), Padding(|result| + 1));
    }
  }

  lemma {:induction false} PadsAfter(n: nat, k: int)
    requires (k == 2 || k == 4) && 2 * (n % 4) == k
    ensures Padding(n + 1) == if k == 2 then ['=', '='] else ['=']
  {
  }

  // ---- Decoding ------------------------------------------------------------------------------------

  lemma {:induction false} NextByte6(exact: int, v: sextet)
    ensures Bits(exact * 64 + v, 4, 8) == exact % 64 * 4 + v / 16 && (exact * 64 + v) % 16 == v % 16
  {
    var q, bits := exact / 64, exact % 64;
    assert exact * 64 + v == bits * 64 + v + 4096 * q;
    Shifted(q, bits * 64 + v, 4096, 16, 256);
    AddMultiple(v, 16, bits * 4);
  }

  lemma {:induction false} NextByte4(exact: int, v: sextet)
    ensures Bits(exact * 64 + v, 2, 8) == exact % 16 * 16 + v / 4 && (exact * 64 + v) % 4 == v % 4
  {
    var q, bits := exact / 16, exact % 16;
    assert exact * 64 + v == bits * 64 + v + 1024 * q;
    Shifted(q, bits * 64 + v, 1024, 4, 256);
    AddMultiple(v, 4, bits * 16);
  }

  lemma {:induction false} NextByte2(exact: int, v: sextet)
    ensures Bits(exact * 64 + v, 0, 8) == exact % 4 * 64 + v
  {
    var q, bits := exact / 4, exact % 4;
    assert exact * 64 + v == bits * 64 + v + 256 * q;
    AddMultiple(bits * 64 + v, 256, q);
  }

  lemma {:induction false} DecodeNext0(exact: int, rest: string)
    requires rest != [] && Value(rest[0]) >= 0
    ensures DecodeFrom(0, 0, rest) == DecodeFrom((exact * 64 + Value(rest[0])) % 64, 6, rest[1..])
  {
    AddMultiple(Value(rest[0]), 64, exact);
  }

  lemma {:induction false} DecodeNext6(exact: int, rest: string)
    requires rest != [] && Value(rest[0]) >= 0
    ensures var exact' := exact * 64 + Value(rest[0]);
            DecodeFrom(exact % 64, 6, rest) == [Bits(exact', 4, 8)] + DecodeFrom(exact' % 16, 4, rest[1..])
  {
    NextByte6(exact, Value(rest[0]));
  }

  lemma {:induction false} DecodeNext4(exact: int, rest: string)
    requires rest != [] && Value(rest[0]) >= 0
    ensures var exact' := exact * 64 + Value(rest[0]);
            DecodeFrom(exact % 16, 4, rest) == [Bits(exact', 2, 8)] + DecodeFrom(exact' % 4, 2, rest[1..])
  {
    NextByte4(exact, Value(rest[0]));
  }

  lemma {:induction false} DecodeNext2(exact: int, rest: string)
    requires rest != [] && Value(rest[0]) >= 0
    ensures var exact' := exact * 64 + Value(rest[0]);
            DecodeFrom(exact % 4, 2, rest) == [Bits(exact', 0, 8)] + DecodeFrom(0, 0, rest[1..])
  {
    NextByte2(exact, Value(rest[0]));
  }

  /** One more character: nothing comes out of the first of a group, a byte out of each other. */
  lemma {:induction false} DecodeNext(exact: int, k: int, rest: string)
    requires (IsLeftOver(k) || k == 6) && rest != [] && Value(rest[0]) >= 0
    ensures var exact' := exact * 64 + Value(rest[0]);
            DecodeFrom(exact % Scale(k), k, rest)
            == if k == 0 then DecodeFrom(exact' % Scale(6), 6, rest[1..])
               else [Bits(exact', k - 2, 8)] + DecodeFrom(exact' % Scale(k - 2), k - 2, rest[1..])
  {
    if k == 6 {
      DecodeNext6(exact, rest);
    } else if k == 4 {
      DecodeNext4(exact, rest);
    } else if k == 2 {
      DecodeNext2(exact, rest);
    } else {
      DecodeNext0(exact, rest);
    }
  }

  /** The decoder between two characters. */
  ghost predicate Decodes(result: seq<byte>, val: int, valb: int, exact: int, rest: string, text: string) {
    && (IsLeftOver(valb + 8) || valb == -2) && SameLow(val, exact)
    && result + DecodeFrom(exact % Scale(valb + 8), valb + 8, rest) == Decoded(text)
  }

  /** What the decoder appends for one more character. */
  function NextByte(val: int, valb: int): seq<byte> { if valb >= 0 then [Bits(val, valb, 8)] else [] }

  lemma {:induction false} DecodesStep(result: seq<byte>, val: int, valb: int, exact: int, rest: string, text: string)
    requires Decodes(result, val, valb, exact, rest, text) && rest != [] && Value(rest[0]) >= 0
    ensures var val', valb', exact' := Push(val, 6, Value(rest[0])), valb + 6, exact * 64 + Value(rest[0]);
            Decodes(result + NextByte(val', valb'), val', if valb' >= 0 then valb' - 8 else valb', exact', rest[1..], text)
  {
    var val', valb', exact' := Push(val, 6, Value(rest[0])), valb + 6, exact * 64 + Value(rest[0]);
    PushKeepsLow(val, exact, 6, Value(rest[0]));
    if valb' >= 0 { SameBits(val', exact', valb', 8); }
    DecodeNext(exact, valb + 8, rest);
    var k' := if valb == -8 then 6 else valb + 6;
    Associative(result, NextByte(val', valb'), DecodeFrom(exact' % Scale(k'), k', rest[1..]));
  }

  lemma {:induction false} DecodesStart(text: string)
    ensures Decodes([], 0, -8, 0, text, text)
  {
    DecodeFromIsDecoded(text);
  }

  /** The characters of a buffer. */
  function Chars(data: seq<byte>): (s: string)
    ensures |s| == |data| && forall k | 0 <= k < |data| :: s[k] == data[k] as char
  {
    seq(|data|, k requires 0 <= k < |data| => data[k] as char)
  }

  class Buffer {
    const data: array<byte>

    constructor (data: array<byte>)
      ensures this.data == data
    {
      this.data := data;
    }

    /** The grouping of the standard; the 32-bit accumulator gives the bits of an unbounded one. */
    method Base64Encode() returns (result: string)
      ensures result == Encoding(data[..])
    {
      var val, valb;
      ghost var exact;
      result, val, valb, exact := Accumulate();
      EncodedEnd(result, val, valb, exact, data[..]);
      if valb > -6 {
        Alphabet(Bits(Wrap(val * 256), valb + 8, 6));
        result := result + [BASE64_STR[Bits(Wrap(val * 256), valb + 8, 6)]];
      }
      result := Pad(result);
    }

    method Pad(digits: string) returns (result: string)
      ensures result == digits + Padding(|digits|)
    {
      result := digits;
      while |result| % 4 != 0
        invariant result + Padding(|result|) == digits + Padding(|digits|)
        decreases (4 - |result| % 4) % 4
      {
        result := result + ['='];
      }
    }

    method Accumulate() returns (result: string, val: int, valb: int, ghost exact: int)
      ensures Encoded(result, val, valb, exact, [], data[..])
    {
      result, val, valb, exact := [], 0, -6, 0;
      EncodedStart(data[..]);
      assert data[0..] == data[..];
      for i := 0 to data.Length
        invariant Encoded(result, val, valb, exact, data[i..], data[..])
      {
        var sextets, valb' := PushSextets(val, valb + 8, data[i], exact);
        assert data[i..][0] == data[i] && data[i..][1..] == data[i + 1..];
        EncodedStep(result, val, valb, exact, data[i..], data[..], sextets, valb');
        result, val, valb, exact := result + sextets, Push(val, 8, data[i]), valb', exact * 256 + data[i];
      }
      assert data[data.Length..] == [];
    }

    /** One byte is shifted in, and whole sextets go out. */
    method PushSextets(before: int, start: int, c: byte, ghost exact: int) returns (sextets: string, valb: int)
      requires IsLeftOver(start - 2) && SameLow(before, exact)
      ensures sextets == Sextets(exact * 256 + c, start) && valb + 6 == LeftOver(start - 2)
      ensures |sextets| == if start == 6 then 2 else 1
    {
      var val := Push(before, 8, c);
      PushKeepsLow(before, exact, 8, c);
      valb, sextets := start, [];
      while valb >= 0
        invariant (valb == start || valb == start - 6 || valb == start - 12) && valb >= -6
        invariant sextets + Sextets(exact * 256 + c, valb) == Sextets(exact * 256 + c, start)
        invariant 6 * |sextets| == start - valb
      {
        SameBits(val, exact * 256 + c, valb, 6);
        Alphabet(Bits(val, valb, 6));
        sextets := sextets + [BASE64_STR[Bits(val, valb, 6)]];
        valb := valb - 6;
      }
    }

    /** The grouping of the standard backwards, up to the first character that is not in the table. */
    method Base64Decode() returns (result: seq<byte>)
      ensures result == Decoded(Chars(data[..]))
    {
      var T := BuildTable();
      result := DecodeWith(T);
    }

    method DecodeWith(T: array<int>) returns (result: seq<byte>)
      requires IsTable(T[..], 64)
      ensures result == Decoded(Chars(data[..]))
    {
      ghost var text := Chars(data[..]);
      var val: int, valb: int := 0, -8;
      ghost var exact: int := 0;
      result := [];
      DecodesStart(text);
      assert text[0..] == text;
      var i := 0;
      while i < data.Length && T[data[i]] != -1
        invariant i <= data.Length && Decodes(result, val, valb, exact, text[i..], text)
      {
        TextGoesOn(text, i);
        var v := TableAt(T, data[i]);
        result, val, valb, exact := DecodeChar(result, val, valb, exact, v, text[i..], text);
        i := i + 1;
      }
      if i < data.Length { var _ := TableAt(T, data[i]); }
      DecodesEnd(result, val, valb, exact, text[i..], text);
    }

    method DecodeChar(
      result: seq<byte>, val: int, valb: int, ghost exact: int, v: int, ghost rest: string, ghost text: string)
      returns (result': seq<byte>, val': int, valb': int, ghost exact': int)
      requires Decodes(result, val, valb, exact, rest, text) && rest != [] && v == Value(rest[0]) >= 0
      ensures Decodes(result', val', valb', exact', rest[1..], text)
    {
      DecodesStep(result, val, valb, exact, rest, text);
      val', exact', valb' := Push(val, 6, v), exact * 64 + v, valb + 6;
      result' := result + NextByte(val', valb');
      if valb' >= 0 { valb' := valb' - 8; }
    }

    method TableAt(T: array<int>, c: byte) returns (v: int)
      requires IsTable(T[..], 64)
      ensures v == T[c] == Value(c as char)
    {
      v := T[c];
      assert T[..][c] == TableEntry(c, 64);
    }
  }

  lemma {:induction false} TextGoesOn(text: string, i: nat)
    requires i < |text|
    ensures text[i..] != [] && text[i..][0] == text[i] && text[i..][1..] == text[i + 1..]
  {
  }

  lemma {:induction false} DecodesEnd(result: seq<byte>, val: int, valb: int, exact: int, rest: string, text: string)
    requires Decodes(result, val, valb, exact, rest, text) && (rest == [] || Value(rest[0]) < 0)
    ensures result == Decoded(text)
  {
  }

  /** The table of the decoder with the first "n" digits: the value of a character, or -1. */
  predicate IsTable(T: seq<int>, n: nat) {
    |T| == 256 && forall k | 0 <= k < 256 :: T[k] == TableEntry(k, n)
  }

  function TableEntry(k: int, n: nat): int
    requires 0 <= k < 256
  {
    if Value(k as char) < n then Value(k as char) else -1
  }

  /** A character is entered when its value comes up, and no other one then. */
  lemma {:induction false} EntryOf(k: int, v: sextet)
    requires 0 <= k < 256
    ensures TableEntry(k, v + 1) == if k == Digit(v) as int then v else TableEntry(k, v)
  {
    ValueOfDigit(v);
    if Value(k as char) >= 0 { DigitOfValue(k as char); }
  }

  method BuildTable() returns (T: array<int>)
    ensures IsTable(T[..], 64)
  {
    T := new int[256](_ => -1);
    for i := 0 to 64
      invariant IsTable(T[..], i)
    {
      ghost var was := T[..];
      Alphabet(i);
      forall k | 0 <= k < 256 ensures TableEntry(k, i + 1) == if k == Digit(i) as int then i else was[k] {
        EntryOf(k, i);
      }
      T[BASE64_STR[i] as int] := i;
    }
  }
}
