/**
 itoa of the user library: the decimal form of a 32-bit int, written backwards
 into a twelve-byte buffer from a non-positive accumulator.
 */
module Itoa {
  import opened Memory

  const TEXT_SIZE := 12
  const ZERO: Byte := 48
  const MINUS: Byte := 45

  type Int32 = x: int | -0x8000_0000 <= x < 0x8000_0000

  // ---------------------------------------------------------------------
  // C's truncating division
  // ---------------------------------------------------------------------

  function TruncDiv(a: int, b: nat): int
    requires b > 0
  {
    if a >= 0 then a / b else -(-a / b)
  }

  function TruncMod(a: int, b: nat): int
    requires b > 0
  {
    a - b * TruncDiv(a, b)
  }

  // ---------------------------------------------------------------------
  // Decimal numerals
  // ---------------------------------------------------------------------

  /** The decimal digits of n, most significant first; none for 0. */
  function Digits(n: nat): seq<Byte> {
    if n == 0 then [] else Digits(n / 10) + [ZERO + n % 10]
  }

  /** The canonical decimal form. */
  function Decimal(i: int): seq<Byte> {
    if i == 0 then [ZERO]
    else if i < 0 then [MINUS] + Digits(-i)
    else Digits(i)
  }

  predicate IsDigit(c: Byte) {
    ZERO <= c <= ZERO + 9
  }

  /** The number a string of digits denotes. */
  function Numeral(s: seq<Byte>): int {
    if s == [] then 0 else 10 * Numeral(s[..|s| - 1]) + (s[|s| - 1] - ZERO)
  }

  /** The number an optionally signed string of digits denotes. */
  function Read(s: seq<Byte>): int {
    if s != [] && s[0] == MINUS then -Numeral(s[1..]) else Numeral(s)
  }

  lemma {:induction false} DigitsRead(n: nat)
    ensures Numeral(Digits(n)) == n
    ensures forall c :: c in Digits(n) ==> IsDigit(c)
    ensures n > 0 ==> Digits(n) != [] && Digits(n)[0] != ZERO
  {
    if n > 0 {
      DigitsRead(n / 10);
      assert Digits(n)[..|Digits(n)| - 1] == Digits(n / 10);
    }
  }

  /** Reading the decimal form gives back the number. */
  lemma ReadDecimal(i: int)
    ensures Read(Decimal(i)) == i
  {
    DigitsRead(if i < 0 then -i else i);
    assert i < 0 ==> Decimal(i)[1..] == Digits(-i);
    assert i > 0 ==> Decimal(i)[0] in Digits(i);
    assert [ZERO][..0] == [];
    assert Numeral([ZERO]) == 10 * Numeral([]) + 0;
  }

  lemma NumeralOf(s: seq<Byte>)
    ensures Numeral(s) == if s == [] then 0 else 10 * Numeral(s[..|s| - 1]) + (s[|s| - 1] - ZERO)
  {
  }

  lemma OneMoreDigit(n: nat, d: nat)
    requires d < 10
    ensures Digits(0) == []
    ensures 10 * n + d > 0 ==> Digits(10 * n + d) == Digits(n) + [ZERO + d]
  {
    var x := 10 * n + d;
    assert x / 10 == n && x % 10 == d;
  }

  /** A string of digits without leading zero is the digits of the number it denotes. */
  lemma {:induction false} DigitsUnique(s: seq<Byte>)
    requires forall c :: c in s ==> IsDigit(c)
    requires s != [] ==> s[0] != ZERO
    ensures Numeral(s) >= 0 && Digits(Numeral(s)) == s
    ensures s != [] ==> Numeral(s) > 0
  {
    hide Digits, Numeral;
    NumeralOf(s);
    OneMoreDigit(0, 1);
    if s != [] {
      var front, last := s[..|s| - 1], s[|s| - 1];
      assert forall c :: c in front ==> c in s;
      assert last in s;
      DigitsUnique(front);
      assert s == front + [last];
      OneMoreDigit(Numeral(front), last - ZERO);
    }
  }

  /** A canonical numeral: digits without leading zero, or "0", or a minus sign before a positive one. */
  predicate Canonical(s: seq<Byte>) {
    var digits := if s != [] && s[0] == MINUS then s[1..] else s;
    s == [ZERO] || (digits != [] && digits[0] != ZERO && forall c :: c in digits ==> IsDigit(c))
  }

  lemma DecimalIsCanonical(i: int)
    ensures Canonical(Decimal(i))
  {
    DigitsRead(if i < 0 then -i else i);
    assert i < 0 ==> Decimal(i)[1..] == Digits(-i);
    assert i > 0 ==> Decimal(i)[0] in Digits(i);
  }

  /** The decimal form of i is the one canonical numeral that reads as i. */
  lemma DecimalIsTheCanonical(i: int, s: seq<Byte>)
    ensures Canonical(Decimal(i))
    ensures Canonical(s) && Read(s) == i ==> s == Decimal(i)
  {
    DecimalIsCanonical(i);
    hide Digits;
    if Canonical(s) && Read(s) == i {
      assert [ZERO][..0] == [];
      assert Numeral([ZERO]) == 10 * Numeral([]) + 0;
      if s != [ZERO] {
        if s[0] == MINUS {
          DigitsUnique(s[1..]);
          assert s == [MINUS] + s[1..];
        } else {
          DigitsUnique(s);
        }
      }
    }
  }

  lemma {:induction false} DigitsLength(n: nat, k: nat, bound: nat)
    requires n < bound == Pow10(k)
    ensures |Digits(n)| <= k
  {
    if n > 0 {
      DigitsLength(n / 10, k - 1, Pow10(k - 1));
    }
  }

  function Pow10(k: nat): nat {
    if k == 0 then 1 else 10 * Pow10(k - 1)
  }

  // ---------------------------------------------------------------------
  // The code
  // ---------------------------------------------------------------------

  /** The loop of itoa, from index 11 downwards, on a non-positive accumulator. */
  method WriteDigits(text: array<Byte>, i: int) returns (loc: nat)
    requires text.Length == TEXT_SIZE && -0x8000_0000 <= i <= 0
    modifies text
    ensures 1 <= loc <= 11 && (loc == 11 <==> i == 0)
    ensures text[loc..11] == Digits(-i) && text[11] == old(text[11])
  {
    hide Digits, TruncDiv, TruncMod;
    TenDigits(-i);
    NextDigit(i, []);
    loc := 11;
    var rest := i;
    while rest != 0
      invariant -0x8000_0000 <= rest <= 0 && text[11] == old(text[11])
      invariant 0 <= loc <= 11 && Digits(-rest) + text[loc..11] == Digits(-i)
      decreases -rest
    {
      ghost var tail := text[loc..11];
      NextDigit(rest, tail);
      loc := loc - 1;
      text[loc] := ZERO - TruncMod(rest, 10);
      assert text[loc..11] == [text[loc]] + tail;
      rest := TruncDiv(rest, 10);
    }
    assert Digits(0) + text[loc..11] == text[loc..11] by { NextDigit(0, []); }
  }

  /** itoa: the decimal form of i ends at index 11, before a NUL, and starts at loc >= 0. */
  method Itoa(text: array<Byte>, i: Int32) returns (loc: nat)
    requires text.Length == TEXT_SIZE
    modifies text
    ensures loc < 11 && text[11] == 0
    ensures text[loc..11] == Decimal(i)
  {
    hide Digits;
    text[11] := 0;
    var rest: int := i;
    var neg := true;
    if rest >= 0 {
      neg := false;
      rest := -rest;
    }
    loc := WriteDigits(text, rest);
    if loc == 11 {
      loc := loc - 1;
      text[loc] := ZERO;
    }
    if neg {
      ghost var tail := text[loc..11];
      loc := loc - 1;
      text[loc] := MINUS;
      assert text[loc..11] == [MINUS] + tail;
    }
  }

  /** One round on a non-positive accumulator: truncation makes the remainder non-positive too. */
  lemma NextDigit(rest: int, tail: seq<Byte>)
    requires rest <= 0
    ensures Digits(0) == []
    ensures rest < 0 ==>
      && rest < TruncDiv(rest, 10) <= 0 && -9 <= TruncMod(rest, 10) <= 0
      && Digits(-rest) != []
      && Digits(-TruncDiv(rest, 10)) + ([ZERO - TruncMod(rest, 10)] + tail) == Digits(-rest) + tail
    ensures rest == 0 ==> Digits(-rest) == []
  {
    if rest < 0 {
      var n := -rest;
      assert TruncDiv(rest, 10) == -(n / 10) && TruncMod(rest, 10) == -(n % 10);
      assert Digits(n) == Digits(n / 10) + [ZERO + n % 10];
    }
  }

  lemma TenDigits(n: nat)
    requires n <= 0x8000_0000
    ensures |Digits(n)| <= 10
  {
    assert Pow10(5) == 100000;
    assert Pow10(10) == 10000000000;
    DigitsLength(n, 10, Pow10(10));
  }
}
