/** Bytes as the numbers they spell, by their binary digits. */
module Octets {
  import opened Bytes

  function Digit(c: bool): (d: nat)
    ensures d <= 1
  {
    if c then 1 else 0
  }

  /** c0 + 2 * c1 + ... + 128 * c7, nested. */
  function Spell(c0: bool, c1: bool, c2: bool, c3: bool, c4: bool, c5: bool, c6: bool, c7: bool): (n: nat)
    ensures n < 0x100 && (n >= 0x80 <==> c7)
  {
    Digit(c0) + 2 * (Digit(c1) + 2 * (Digit(c2) + 2 * (Digit(c3)
      + 2 * (Digit(c4) + 2 * (Digit(c5) + 2 * (Digit(c6) + 2 * Digit(c7)))))))
  }

  function FromBits(c0: bool, c1: bool, c2: bool, c3: bool, c4: bool, c5: bool, c6: bool, c7: bool): byte {
    (if c0 then 0x01 else 0) | (if c1 then 0x02 else 0) | (if c2 then 0x04 else 0) | (if c3 then 0x08 else 0)
    | (if c4 then 0x10 else 0) | (if c5 then 0x20 else 0) | (if c6 then 0x40 else 0) | (if c7 then 0x80 else 0)
  }

  /** The unsigned value of a byte. */
  function Value(b: byte): (n: nat)
    ensures n < 0x100 && (n >= 0x80 <==> b & 0x80 != 0)
  {
    Spell(b & 0x01 != 0, b & 0x02 != 0, b & 0x04 != 0, b & 0x08 != 0,
      b & 0x10 != 0, b & 0x20 != 0, b & 0x40 != 0, b & 0x80 != 0)
  }

  /** The cast to a byte of a number that fits. */
  function Narrow(n: nat): byte
    requires n < 0x100
  {
    FromBits(Odd(n, 0), Odd(n, 1), Odd(n, 2), Odd(n, 3), Odd(n, 4), Odd(n, 5), Odd(n, 6), Odd(n, 7))
  }

  /** n halved k times. */
  function Halved(n: nat, k: nat): (h: nat) {
    if k == 0 then n else Halved(n, k - 1) / 2
  }

  /** The k-th binary digit of n is 1. */
  predicate Odd(n: nat, k: nat) {
    Halved(n, k) % 2 == 1
  }

  lemma BitsOf(c0: bool, c1: bool, c2: bool, c3: bool, c4: bool, c5: bool, c6: bool, c7: bool)
    ensures var b := FromBits(c0, c1, c2, c3, c4, c5, c6, c7);
      (b & 0x01 != 0) == c0 && (b & 0x02 != 0) == c1 && (b & 0x04 != 0) == c2 && (b & 0x08 != 0) == c3
      && (b & 0x10 != 0) == c4 && (b & 0x20 != 0) == c5 && (b & 0x40 != 0) == c6 && (b & 0x80 != 0) == c7
  {
  }

  lemma FromOwnBits(b: byte)
    ensures FromBits(b & 0x01 != 0, b & 0x02 != 0, b & 0x04 != 0, b & 0x08 != 0,
      b & 0x10 != 0, b & 0x20 != 0, b & 0x40 != 0, b & 0x80 != 0) == b
  {
  }

  lemma HalvedStep(n: nat, k: nat)
    ensures Halved(n, k) == Digit(Odd(n, k)) + 2 * Halved(n, k + 1)
  {
  }

  lemma {:induction false} HalvedBound(n: nat, k: nat)
    requires n < 0x100
    ensures k <= 8 ==> Halved(n, k) < Power(8 - k)
    ensures k == 8 ==> Halved(n, k) == 0
  {
    if 0 < k <= 8 {
      HalvedBound(n, k - 1);
      assert Power(8 - (k - 1)) == 2 * Power(8 - k);
    }
  }

  function Power(k: nat): nat {
    if k == 0 then 1 else 2 * Power(k - 1)
  }

  lemma SpellDigits(n: nat)
    requires n < 0x100
    ensures Spell(Odd(n, 0), Odd(n, 1), Odd(n, 2), Odd(n, 3), Odd(n, 4), Odd(n, 5), Odd(n, 6), Odd(n, 7)) == n
  {
    assert Halved(n, 0) == n;
    HalvedBound(n, 8);
    hide Odd, Halved, Digit;
    HalvedStep(n, 0);
    HalvedStep(n, 1);
    HalvedStep(n, 2);
    HalvedStep(n, 3);
    HalvedStep(n, 4);
    HalvedStep(n, 5);
    HalvedStep(n, 6);
    HalvedStep(n, 7);
  }

  lemma Unspell(n: nat, k: nat, c: bool, rest: nat)
    requires Halved(n, k) == Digit(c) + 2 * rest
    ensures Odd(n, k) == c && Halved(n, k + 1) == rest
  {
  }

  lemma HalvedZero(n: nat)
    ensures Halved(n, 0) == n
  {
  }

  lemma DigitsOfSpell(c0: bool, c1: bool, c2: bool, c3: bool, c4: bool, c5: bool, c6: bool, c7: bool)
    ensures var n := Spell(c0, c1, c2, c3, c4, c5, c6, c7);
      Odd(n, 0) == c0 && Odd(n, 1) == c1 && Odd(n, 2) == c2 && Odd(n, 3) == c3
      && Odd(n, 4) == c4 && Odd(n, 5) == c5 && Odd(n, 6) == c6 && Odd(n, 7) == c7
  {
    hide Odd, Halved, Digit;
    var n := Spell(c0, c1, c2, c3, c4, c5, c6, c7);
    HalvedZero(n);
    var r7 := Digit(c7);
    var r6 := Digit(c6) + 2 * r7;
    var r5 := Digit(c5) + 2 * r6;
    var r4 := Digit(c4) + 2 * r5;
    var r3 := Digit(c3) + 2 * r4;
    var r2 := Digit(c2) + 2 * r3;
    var r1 := Digit(c1) + 2 * r2;
    assert n == Digit(c0) + 2 * r1;
    Unspell(n, 0, c0, r1);
    Unspell(n, 1, c1, r2);
    Unspell(n, 2, c2, r3);
    Unspell(n, 3, c3, r4);
    Unspell(n, 4, c4, r5);
    Unspell(n, 5, c5, r6);
    Unspell(n, 6, c6, r7);
    Unspell(n, 7, c7, 0);
  }

  lemma ValueOfNarrow(n: nat)
    requires n < 0x100
    ensures Value(Narrow(n)) == n
  {
    hide FromBits, Spell, Odd;
    BitsOf(Odd(n, 0), Odd(n, 1), Odd(n, 2), Odd(n, 3), Odd(n, 4), Odd(n, 5), Odd(n, 6), Odd(n, 7));
    SpellDigits(n);
  }

  lemma NarrowOfValue(b: byte)
    ensures Narrow(Value(b)) == b
  {
    hide FromBits, Spell, Odd;
    DigitsOfSpell(b & 0x01 != 0, b & 0x02 != 0, b & 0x04 != 0, b & 0x08 != 0,
      b & 0x10 != 0, b & 0x20 != 0, b & 0x40 != 0, b & 0x80 != 0);
    FromOwnBits(b);
  }

  /** Clearing the top bit takes its 128 off the value. */
  lemma LowSeven(b: byte)
    ensures Value(b & 0x7F) == Value(b) - if b & 0x80 != 0 then 0x80 else 0
  {
    hide Digit, Spell;
    ClearTop(b);
    TopDigit(b & 0x01 != 0, b & 0x02 != 0, b & 0x04 != 0, b & 0x08 != 0, b & 0x10 != 0, b & 0x20 != 0, b & 0x40 != 0);
  }

  lemma ClearTop(b: byte)
    ensures (b & 0x7F) & 0x01 == b & 0x01 && (b & 0x7F) & 0x02 == b & 0x02
    ensures (b & 0x7F) & 0x04 == b & 0x04 && (b & 0x7F) & 0x08 == b & 0x08
    ensures (b & 0x7F) & 0x10 == b & 0x10 && (b & 0x7F) & 0x20 == b & 0x20
    ensures (b & 0x7F) & 0x40 == b & 0x40 && (b & 0x7F) & 0x80 == 0
  {
  }

  lemma TopDigit(c0: bool, c1: bool, c2: bool, c3: bool, c4: bool, c5: bool, c6: bool)
    ensures Spell(c0, c1, c2, c3, c4, c5, c6, true) == Spell(c0, c1, c2, c3, c4, c5, c6, false) + 0x80
  {
  }

  lemma HundredAndZero()
    ensures Value(0x64) == 100 && Value(0x00) == 0
  {
  }

  /** Four binary digits, and their order by the highest that differs. */
  function Nibble(c0: bool, c1: bool, c2: bool, c3: bool): (n: nat)
    ensures n < 16
  {
    Digit(c0) + 2 * Digit(c1) + 4 * Digit(c2) + 8 * Digit(c3)
  }

  predicate Less(c0: bool, c1: bool, c2: bool, c3: bool, d0: bool, d1: bool, d2: bool, d3: bool) {
    (!c3 && d3) || (c3 == d3 && ((!c2 && d2) || (c2 == d2 && ((!c1 && d1) || (c1 == d1 && !c0 && d0)))))
  }

  lemma NibbleOrder(c0: bool, c1: bool, c2: bool, c3: bool, d0: bool, d1: bool, d2: bool, d3: bool)
    ensures Less(c0, c1, c2, c3, d0, d1, d2, d3) ==> Nibble(c0, c1, c2, c3) < Nibble(d0, d1, d2, d3)
  {
  }

  lemma SpellNibbles(c0: bool, c1: bool, c2: bool, c3: bool, c4: bool, c5: bool, c6: bool, c7: bool)
    ensures Spell(c0, c1, c2, c3, c4, c5, c6, c7) == Nibble(c0, c1, c2, c3) + 16 * Nibble(c4, c5, c6, c7)
  {
    hide Digit;
  }

  /** The order of two bytes, by their nibbles. */
  lemma ByteOrder(a: byte, b: byte)
    requires a < b
    ensures
      || Less(a & 0x10 != 0, a & 0x20 != 0, a & 0x40 != 0, a & 0x80 != 0,
              b & 0x10 != 0, b & 0x20 != 0, b & 0x40 != 0, b & 0x80 != 0)
      || (a & 0xF0 == b & 0xF0
          && Less(a & 0x01 != 0, a & 0x02 != 0, a & 0x04 != 0, a & 0x08 != 0,
                  b & 0x01 != 0, b & 0x02 != 0, b & 0x04 != 0, b & 0x08 != 0))
  {
  }

  lemma SameHigh(a: byte, b: byte)
    requires a & 0xF0 == b & 0xF0
    ensures (a & 0x10 != 0) == (b & 0x10 != 0) && (a & 0x20 != 0) == (b & 0x20 != 0)
    ensures (a & 0x40 != 0) == (b & 0x40 != 0) && (a & 0x80 != 0) == (b & 0x80 != 0)
  {
  }

  /** The value grows with the byte, from 0 to 255: it is the byte's number. */
  lemma ValueIncreases(a: byte, b: byte)
    requires a < b
    ensures Value(a) < Value(b)
  {
    hide Spell, Less, Nibble;
    ByteOrder(a, b);
    if a & 0xF0 == b & 0xF0 {
      SameHigh(a, b);
    }
    NibbleOrder(a & 0x10 != 0, a & 0x20 != 0, a & 0x40 != 0, a & 0x80 != 0,
      b & 0x10 != 0, b & 0x20 != 0, b & 0x40 != 0, b & 0x80 != 0);
    NibbleOrder(a & 0x01 != 0, a & 0x02 != 0, a & 0x04 != 0, a & 0x08 != 0,
      b & 0x01 != 0, b & 0x02 != 0, b & 0x04 != 0, b & 0x08 != 0);
    SpellNibbles(a & 0x01 != 0, a & 0x02 != 0, a & 0x04 != 0, a & 0x08 != 0,
      a & 0x10 != 0, a & 0x20 != 0, a & 0x40 != 0, a & 0x80 != 0);
    SpellNibbles(b & 0x01 != 0, b & 0x02 != 0, b & 0x04 != 0, b & 0x08 != 0,
      b & 0x10 != 0, b & 0x20 != 0, b & 0x40 != 0, b & 0x80 != 0);
  }
}
