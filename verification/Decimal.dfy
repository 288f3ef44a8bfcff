/** uint64ToString and int64ToString of Type/Type.cpp: decimal digits are written from the right end of a
    buffer and moved to its start. */
module Decimals {
  import opened Modular

  // ---- Decimal numerals --------------------------------------------------------------------------

  function Digit(d: int): char
    requires 0 <= d < 10
  {
    '0' + d as char
  }

  predicate IsNumeral(s: string) { forall k | 0 <= k < |s| :: '0' <= s[k] <= '9' }

  /** The number a numeral stands for. */
  function Number(s: string): nat
    requires IsNumeral(s)
  {
    if s == [] then 0 else Number(s[..|s| - 1]) * 10 + (s[|s| - 1] - '0') as int
  }

  /** The numeral of a number, without leading zeros. */
  function Numeral(n: nat): (s: string)
    ensures s != [] && IsNumeral(s)
  {
    if n < 10 then [Digit(n)] else Numeral(n / 10) + [Digit(n % 10)]
  }

  function Pow10(k: nat): (p: int)
    ensures p > 0
  {
    if k == 0 then 1 else 10 * Pow10(k - 1)
  }

  lemma {:induction false} NumberOfNumeral(n: nat)
    ensures Number(Numeral(n)) == n
  {
    if n >= 10 {
      var s := Numeral(n);
      assert s[..|s| - 1] == Numeral(n / 10);
      NumberOfNumeral(n / 10);
    } else {
      assert Numeral(n)[..0] == [];
    }
  }

  /** A number has at most k digits exactly when it is below 10^k. */
  lemma {:induction false} NumeralSize(n: nat, k: nat)
    requires k > 0
    ensures |Numeral(n)| <= k <==> n < Pow10(k)
  {
    if n >= 10 && k > 1 {
      NumeralSize(n / 10, k - 1);
      assert n / 10 < Pow10(k - 1) <==> n < 10 * Pow10(k - 1);
    } else if k > 1 {
      assert Pow10(k) == 10 * Pow10(k - 1);
    }
  }

  lemma {:induction false} NumeralHasNoLeadingZero(n: nat)
    ensures Numeral(n)[0] == '0' ==> n == 0
  {
    if n >= 10 { NumeralHasNoLeadingZero(n / 10); }
  }

  /** The last k characters. */
  function Last(s: string, k: nat): string { if k >= |s| then s else s[|s| - k..] }

  /** The last k digits of n are a numeral of n modulo 10^k. */
  lemma {:induction false} LastDigits(n: nat, k: nat)
    requires k > 0
    ensures IsNumeral(Last(Numeral(n), k)) && Number(Last(Numeral(n), k)) == n % Pow10(k)
  {
    if |Numeral(n)| <= k {
      NumeralSize(n, k);
      NumberOfNumeral(n);
      DivModUnique(n, Pow10(k), 0, n);
    } else {
      NumeralIsLong(n, k);
      if k == 1 {
        LastOne(Numeral(n / 10), Digit(n % 10));
      } else {
        LastDigits(n / 10, k - 1);
        LastMore(Numeral(n / 10), Digit(n % 10), k);
        ModTen(n, Pow10(k - 1));
      }
    }
  }

  lemma {:induction false} NumeralIsLong(n: nat, k: nat)
    requires |Numeral(n)| > k > 0
    ensures n >= 10 && Numeral(n) == Numeral(n / 10) + [Digit(n % 10)] && |Numeral(n / 10)| >= k
  {
  }

  lemma {:induction false} LastOne(s: string, d: char)
    requires '0' <= d <= '9'
    ensures Last(s + [d], 1) == [d] && Number([d]) == (d - '0') as int
  {
    assert [d][..0] == [];
  }

  lemma {:induction false} LastMore(s: string, d: char, k: nat)
    requires '0' <= d <= '9' && 1 < k <= |s| && IsNumeral(Last(s, k - 1))
    ensures Last(s + [d], k) == Last(s, k - 1) + [d]
    ensures IsNumeral(Last(s + [d], k)) && Number(Last(s + [d], k)) == Number(Last(s, k - 1)) * 10 + (d - '0') as int
  {
    var t := Last(s + [d], k);
    assert t == Last(s, k - 1) + [d];
    assert t[..|t| - 1] == Last(s, k - 1);
  }

  lemma {:induction false} ModTen(n: nat, p: int)
    requires p > 0
    ensures n / 10 % p * 10 + n % 10 == n % (10 * p)
  {
    var q := n / 10 / p;
    assert n / 10 == p * q + n / 10 % p;
    assert n == 10 * p * q + (n / 10 % p * 10 + n % 10);
    DivModUnique(n, 10 * p, q, n / 10 % p * 10 + n % 10);
  }

  // ---- The functions ------------------------------------------------------------------------------

  const MAX_UINT64 := 0xFFFF_FFFF_FFFF_FFFF
  const MIN_INT64 := -0x8000_0000_0000_0000

  /** What uint64ToString leaves in a buffer of that size, the null aside. */
  function Text(n: nat, bufferSize: nat): string
    requires bufferSize >= 2
  {
    Last(Numeral(n), bufferSize - 1)
  }

  /** A buffer that is large enough gets the numeral of n, any other exactly bufferSize - 1 digits. */
  lemma {:induction false} TextFits(n: nat, bufferSize: nat)
    requires bufferSize >= 2
    ensures n < Pow10(bufferSize - 1) ==> Text(n, bufferSize) == Numeral(n)
    ensures n >= Pow10(bufferSize - 1) ==> |Text(n, bufferSize)| == bufferSize - 1
  {
    NumeralSize(n, bufferSize - 1);
  }

  /** In any case they are a numeral of n modulo 10^(bufferSize - 1). */
  lemma {:induction false} TextIsModulo(n: nat, bufferSize: nat)
    requires bufferSize >= 2
    ensures IsNumeral(Text(n, bufferSize)) && Number(Text(n, bufferSize)) == n % Pow10(bufferSize - 1)
  {
    LastDigits(n, bufferSize - 1);
  }

  /** 21 bytes hold every unsigned number with its null. */
  lemma {:induction false} Uint64Fits(n: nat)
    requires n <= MAX_UINT64
    ensures Text(n, 21) == Numeral(n)
  {
    assert Pow10(5) == 100000;
    assert Pow10(10) == 100000 * Pow10(5);
    assert Pow10(15) == 100000 * Pow10(10);
    assert Pow10(20) == 100000 * Pow10(15);
    NumeralSize(n, 20);
  }

  /** And every signed number with its sign, the least one included. */
  lemma {:induction false} Int64Fits(n: int)
    requires MIN_INT64 <= n < 0
    ensures Text(-n, 20) == Numeral(-n)
  {
    assert Pow10(4) == 10000;
    assert Pow10(9) == 100000 * Pow10(4);
    assert Pow10(14) == 100000 * Pow10(9);
    assert Pow10(19) == 100000 * Pow10(14);
    NumeralSize(-n, 19);
  }

  /** The bytes of a buffer outside of a range. */
  twostate predicate Outside(buffer: array<char>, offset: int, size: int)
    reads buffer
  {
    forall k | 0 <= k < buffer.Length && !(offset <= k < offset + size) :: buffer[k] == old(buffer[k])
  }

  /** The digits still to come, in front of those already written. */
  function Front(number: nat): string { if number == 0 then [] else Numeral(number) }

  ghost predicate Written(n: nat, number: nat, written: string) {
    Numeral(n) == Front(number) + written
  }

  lemma {:induction false} WrittenStart(n: nat)
    ensures Written(n, n / 10, [Digit(n % 10)])
  {
  }

  lemma {:induction false} WrittenStep(n: nat, number: nat, written: string)
    requires Written(n, number, written) && number != 0
    ensures Written(n, number / 10, [Digit(number % 10)] + written)
  {
    assert Front(number) == Front(number / 10) + [Digit(number % 10)];
    assert (Front(number / 10) + [Digit(number % 10)]) + written == Front(number / 10) + ([Digit(number % 10)] + written);
  }

  lemma {:induction false} WrittenEnd(n: nat, number: nat, written: string, k: nat)
    requires Written(n, number, written) && |written| <= k && (number == 0 || |written| == k)
    ensures Last(Numeral(n), k) == written
  {
  }

  /** "buffer" is the part of "a" that starts at "offset". The result counts the null. A source with less
      than two bytes would be written outside of its bounds. */
  method Uint64ToString(buffer: array<char>, offset: nat, bufferSize: nat, n: nat) returns (size: nat)
    requires n <= MAX_UINT64 && bufferSize >= 2 && offset + bufferSize <= buffer.Length
    modifies buffer
    ensures size == |Text(n, bufferSize)| + 1 <= bufferSize
    ensures buffer[offset..offset + size] == Text(n, bufferSize) + ['\0']
    ensures Outside(buffer, offset, bufferSize)
  {
    var end := offset + bufferSize;
    var str := WriteDigits(buffer, offset, bufferSize, n);
    size := end - str;
    ghost var text := buffer[str..end];
    MoveDown(buffer, offset, str, size);
    assert buffer[offset..offset + size] == text;
  }

  /** The digits at the right end of the buffer, in front of the null. */
  method WriteDigits(buffer: array<char>, offset: nat, bufferSize: nat, n: nat) returns (str: nat)
    requires bufferSize >= 2 && offset + bufferSize <= buffer.Length
    modifies buffer
    ensures offset <= str < offset + bufferSize - 1
    ensures buffer[str..offset + bufferSize] == Text(n, bufferSize) + ['\0']
    ensures Outside(buffer, offset, bufferSize)
  {
    var end := offset + bufferSize;
    str := end - 1;
    buffer[str] := '\0';
    WrittenStart(n);
    str := Prepend(buffer, str, end - 1, Digit(n % 10));
    ghost var written := [Digit(n % 10)];
    var number: nat := n / 10;
    while number != 0 && offset < str
      invariant offset <= str < end - 1 && buffer[end - 1] == '\0'
      invariant buffer[str..end - 1] == written && Written(n, number, written)
      invariant Outside(buffer, offset, bufferSize)
    {
      WrittenStep(n, number, written);
      str := Prepend(buffer, str, end - 1, Digit(number % 10));
      written := [Digit(number % 10)] + written;
      number := number / 10;
    }
    WrittenEnd(n, number, written, bufferSize - 1);
    assert buffer[str..end] == buffer[str..end - 1] + ['\0'];
  }

  /** *--pStr = digit */
  method Prepend(buffer: array<char>, before: nat, end: nat, digit: char) returns (str: nat)
    requires 0 < before <= end <= buffer.Length
    modifies buffer
    ensures str == before - 1 && buffer[str..end] == [digit] + old(buffer[before..end])
    ensures forall k | 0 <= k < buffer.Length && k != str :: buffer[k] == old(buffer[k])
  {
    str := before - 1;
    buffer[str] := digit;
    assert buffer[str..end] == [buffer[str]] + buffer[before..end];
  }

  /** memmove() to a lower position. */
  method MoveDown(buffer: array<char>, to: nat, from: nat, size: nat)
    requires to <= from && from + size <= buffer.Length
    modifies buffer
    ensures buffer[to..to + size] == old(buffer[from..from + size])
    ensures Outside(buffer, to, from + size - to)
  {
    for i := 0 to size
      invariant buffer[to..to + i] == old(buffer[from..from + i])
      invariant forall k | from + i <= k < from + size :: buffer[k] == old(buffer[k])
      invariant Outside(buffer, to, from + size - to)
    {
      buffer[to + i] := buffer[from + i];
      assert buffer[to..to + i + 1] == buffer[to..to + i] + [buffer[to + i]];
    }
  }

  /** The sign goes first; "-n" is computed in 64 bits, which maps the least number to itself and, read as
      unsigned, to its absolute value. */
  method Int64ToString(buffer: array<char>, bufferSize: nat, n: int) returns (size: nat)
    requires MIN_INT64 <= n <= -(MIN_INT64 + 1) && bufferSize >= (if n < 0 then 3 else 2) && bufferSize <= buffer.Length
    modifies buffer
    ensures size == |SignedText(n, bufferSize)| + 1 <= bufferSize
    ensures buffer[..size] == SignedText(n, bufferSize) + ['\0']
    ensures Outside(buffer, 0, bufferSize)
  {
    if n < 0 {
      buffer[0] := '-';
      NegationFits(n);
      size := Uint64ToString(buffer, 1, bufferSize - 1, -n % (MAX_UINT64 + 1));
      size := size + 1;
      assert buffer[..size] == ['-'] + buffer[1..size];
    } else {
      size := Uint64ToString(buffer, 0, bufferSize, n);
    }
  }

  lemma {:induction false} NegationFits(n: int)
    requires MIN_INT64 <= n < 0
    ensures -n % (MAX_UINT64 + 1) == -n <= MAX_UINT64
  {
  }

  /** In decimal: 1204 is "1204", and of it "204" fits into a buffer of four bytes. */
  lemma {:induction false} NumeralExample()
    ensures Numeral(1204) == "1204" && Text(1204, 4) == "204"
  {
    assert Numeral(1) == "1" && Numeral(12) == "12" && Numeral(120) == "120";
  }

  function SignedText(n: int, bufferSize: nat): string
    requires bufferSize >= 3 || (n >= 0 && bufferSize >= 2)
  {
    if n < 0 then ['-'] + Text(-n, bufferSize - 1) else Text(n, bufferSize)
  }

  /** 21 bytes hold every signed number: a sign if it is negative, and the numeral of its absolute value. */
  lemma {:induction false} Int64TextFits(n: int)
    requires MIN_INT64 <= n <= -(MIN_INT64 + 1)
    ensures SignedText(n, 21) == if n < 0 then ['-'] + Numeral(-n) else Numeral(n)
  {
    if n < 0 { Int64Fits(n); } else { Uint64Fits(n); }
  }
}
