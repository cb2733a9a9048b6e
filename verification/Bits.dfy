/**
 Bitwise AND and OR on unsigned integers.

 A 32-bit word is both a number that is divided into page indexes and a bit
 pattern that carries flags, so words are kept as integers and the two bitwise
 operators the kernel applies to them are defined bit by bit.
 */
module Bits {

  const WORD_LIMIT := 0x1_0000_0000

  type Word = x: int | 0 <= x < WORD_LIMIT

  function And(x: nat, y: nat): (r: nat)
    ensures r <= y
  {
    if x == 0 || y == 0 then 0
    else (if x % 2 == 1 && y % 2 == 1 then 1 else 0) + 2 * And(x / 2, y / 2)
  }

  function Or(x: nat, y: nat): nat
    decreases x + y
  {
    if x == 0 && y == 0 then 0
    else (if x % 2 == 1 || y % 2 == 1 then 1 else 0) + 2 * Or(x / 2, y / 2)
  }

  /** x shifted left by k bits. */
  function Shl(x: nat, k: nat): nat {
    if k == 0 then x else 2 * Shl(x, k - 1)
  }

  lemma {:induction false} OrZero(x: nat)
    ensures Or(x, 0) == x
  {
    if x != 0 { OrZero(x / 2); }
  }

  /** Pieces that do not meet: the low k bits are OR-ed on their own. */
  lemma {:induction false} OrHigh(h: nat, l: nat, m: nat, k: nat)
    requires l < Shl(1, k) && m < Shl(1, k)
    ensures Or(l, m) < Shl(1, k)
    ensures Or(Shl(h, k) + l, m) == Shl(h, k) + Or(l, m)
  {
    if k == 0 {
      OrZero(h);
    } else {
      OrHigh(h, l / 2, m / 2, k - 1);
      OrHalves(Shl(h, k - 1), l, m);
      OrHalves(0, l, m);
    }
  }

  lemma OrHalves(x: nat, l: nat, m: nat)
    ensures Or(2 * x + l, m) == (if l % 2 == 1 || m % 2 == 1 then 1 else 0) + 2 * Or(x + l / 2, m / 2)
  {
    assert (2 * x + l) / 2 == x + l / 2;
  }

  lemma AndEven(x: nat, m: nat)
    ensures And(x, 2 * m) == 2 * And(x / 2, m)
  {
    assert (2 * m) / 2 == m;
  }

  /** AND with a mask whose low k bits are clear drops exactly the low k bits. */
  lemma {:induction false} AndHigh(h: nat, l: nat, m: nat, k: nat)
    requires l < Shl(1, k)
    ensures And(Shl(h, k) + l, Shl(m, k)) == Shl(And(h, m), k)
  {
    if k != 0 {
      AndHigh(h, l / 2, m, k - 1);
      AndEven(Shl(h, k) + l, Shl(m, k - 1));
      assert (2 * Shl(h, k - 1) + l) / 2 == Shl(h, k - 1) + l / 2;
    }
  }

  /** A mask of k bits sees the low k bits only. */
  lemma {:induction false} AndLow(h: nat, l: nat, m: nat, k: nat)
    requires l < Shl(1, k) && m < Shl(1, k)
    ensures And(Shl(h, k) + l, m) == And(l, m)
  {
    if k != 0 {
      AndLow(h, l / 2, m / 2, k - 1);
      AndHalves(Shl(h, k - 1), l, m);
      AndHalves(0, l, m);
    }
  }

  lemma AndHalves(x: nat, l: nat, m: nat)
    ensures And(2 * x + l, m) == (if l % 2 == 1 && m % 2 == 1 then 1 else 0) + 2 * And(x + l / 2, m / 2)
  {
    assert (2 * x + l) / 2 == x + l / 2;
  }

  /** Bit one of a number. */
  lemma AndTwo(x: nat)
    ensures And(x, 2) == 2 * (x / 2 % 2)
  {
    AndEven(x, 1);
    assert And(x / 2 / 2, 0) == 0;
    assert And(x / 2, 1) == x / 2 % 2;
  }

  /** A mask of k ones keeps a number of k bits. */
  lemma {:induction false} AndOnes(x: nat, k: nat)
    requires x < Shl(1, k)
    ensures And(x, Shl(1, k) - 1) == x
  {
    if k != 0 {
      AndOnes(x / 2, k - 1);
      AndOdd(x, Shl(1, k - 1) - 1);
    }
  }

  lemma AndOdd(x: nat, m: nat)
    ensures And(x, 2 * m + 1) == x % 2 + 2 * And(x / 2, m)
  {
    assert (2 * m + 1) / 2 == m;
  }

  lemma ShlThree(x: nat)
    ensures Shl(x, 3) == 8 * x
  {
    assert Shl(x, 1) == 2 * x;
    assert Shl(x, 2) == 4 * x;
  }

  lemma {:induction false} ShlTwice(x: nat, j: nat, k: nat)
    ensures Shl(x, j + k) == Shl(Shl(x, j), k)
  {
    if k > 0 { ShlTwice(x, j, k - 1); }
  }

  lemma ShlTwelve(x: nat)
    ensures Shl(x, 12) == 4096 * x
  {
    ShlTwice(x, 6, 6);
    ShlTwice(x, 3, 3);
    ShlTwice(64 * x, 3, 3);
    ShlThree(x);
    ShlThree(8 * x);
    ShlThree(64 * x);
    ShlThree(512 * x);
  }

  lemma ShlOne()
    ensures Shl(1, 20) == 0x10_0000 && Shl(1, 32) == 0x1_0000_0000
  {
    assert Shl(1, 8) == 0x100;
    assert Shl(1, 16) == 0x1_0000;
    assert Shl(1, 20) == 0x10_0000;
    assert Shl(1, 26) == 0x400_0000;
  }

  /** The mask paging.c uses to recover a table pointer rounds down to a page boundary. */
  lemma PageMask(w: Word)
    ensures And(w, 0xffff_f000) == w - w % 4096
  {
    hide And, Shl;
    var h, l := w / 4096, w % 4096;
    ShlTwelve(h);
    ShlTwelve(1);
    ShlTwelve(0xf_ffff);
    ShlOne();
    AndHigh(h, l, 0xf_ffff, 12);
    AndOnes(h, 20);
  }

  /** A flag below bit twelve is the same in a word and in its place within a page. */
  lemma FlagBit(w: nat, bit: nat)
    requires bit < 4096
    ensures And(w, bit) == And(w % 4096, bit)
  {
    hide And, Shl;
    ShlTwelve(w / 4096);
    ShlTwelve(1);
    AndLow(w / 4096, w % 4096, bit, 12);
  }

  /** OR-ing flags into the low twelve bits leaves the page address alone. */
  lemma FlagsOr(page: nat, low: nat, flags: nat)
    requires low < 4096 && flags < 4096
    ensures Or(low, flags) < 4096
    ensures Or(4096 * page + low, flags) == 4096 * page + Or(low, flags)
  {
    hide Or, Shl;
    ShlTwelve(page);
    ShlTwelve(1);
    OrHigh(page, low, flags, 12);
  }

  lemma {:induction false} ZeroOr(x: nat)
    ensures Or(0, x) == x
  {
    if x != 0 { ZeroOr(x / 2); }
  }

  /** The OR of two words is a word. */
  lemma OrIsWord(x: Word, y: Word)
    ensures Or(x, y) < WORD_LIMIT
  {
    ShlOne();
    OrHigh(0, x, y, 32);
  }

  /** Wrapping at 2^32 keeps the place within a page, and the page number up to whole turns. */
  lemma WrapPage(x: nat)
    ensures x % WORD_LIMIT / 4096 == x / 4096 % 0x10_0000
    ensures x % WORD_LIMIT % 4096 == x % 4096
  {
    var k, r := x / WORD_LIMIT, x % WORD_LIMIT;
    assert x == k * 0x10_0000 * 4096 + r;
    assert x / 4096 == k * 0x10_0000 + r / 4096;
  }

  lemma WrapAdd(x: nat, y: nat)
    ensures (x % WORD_LIMIT + y) % WORD_LIMIT == (x + y) % WORD_LIMIT
  {
    var k := x / WORD_LIMIT;
    assert x + y == k * WORD_LIMIT + (x % WORD_LIMIT + y);
  }
}
