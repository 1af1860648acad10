/**
 Bitwise or and and on 32-bit words, defined bit by bit, and the facts that make packing flags into
 the low 12 bits of a page-aligned address lossless.
 */
module Bits {
  type Word = x: nat | x < 0x1_0000_0000

  function Or(a: nat, b: nat): nat
    decreases a + b
  {
    if a == 0 then b else if b == 0 then a
    else (if a % 2 == 1 || b % 2 == 1 then 1 else 0) + 2 * Or(a / 2, b / 2)
  }

  function And(a: nat, b: nat): nat
    decreases a + b
  {
    if a == 0 || b == 0 then 0
    else (if a % 2 == 1 && b % 2 == 1 then 1 else 0) + 2 * And(a / 2, b / 2)
  }

  function Pow2(k: nat): (r: nat)
    ensures r >= 1
  {
    if k == 0 then 1 else 2 * Pow2(k - 1)
  }

  /** The low k bits. */
  function Low(a: nat, k: nat): nat {
    if k == 0 then 0 else a % 2 + 2 * Low(a / 2, k - 1)
  }

  /** Or only touches the low k bits when one operand has no others. */
  lemma {:induction false} OrLow(a: nat, f: nat, g: nat, k: nat)
    requires Low(a, k) == 0 && f < Pow2(k) && g < Pow2(k)
    ensures Or(a + f, g) == a + Or(f, g) && Or(f, g) < Pow2(k)
    decreases k
  {
    if k > 0 {
      OrLow(a / 2, f / 2, g / 2, k - 1);
      assert (a + f) / 2 == a / 2 + f / 2;
    }
  }

  lemma {:induction false} AndLow(a: nat, f: nat, m: nat, k: nat)
    requires Low(a, k) == 0 && f < Pow2(k) && m < Pow2(k)
    ensures And(a + f, m) == And(f, m)
    decreases k
  {
    if k > 0 {
      AndLow(a / 2, f / 2, m / 2, k - 1);
      assert (a + f) / 2 == a / 2 + f / 2;
    }
  }

  lemma {:induction false} AndAllOnes(x: nat, n: nat)
    requires x < Pow2(n)
    ensures And(x, Pow2(n) - 1) == x
    decreases n
  {
    hide And, Pow2;
    DoubledPower(n);
    if x == 0 {
      AndZero(Pow2(n) - 1);
    } else {
      AndAllOnes(x / 2, n - 1);
      AndOdd(x, Pow2(n) - 1);
    }
  }

  lemma DoubledPower(n: nat)
    ensures Pow2(n) == if n == 0 then 1 else 2 * Pow2(n - 1)
  {}

  lemma AndZero(m: nat)
    ensures And(0, m) == 0
  {}

  /** With an odd mask the lowest bit comes through. */
  lemma AndOdd(x: nat, m: nat)
    requires x > 0 && m % 2 == 1
    ensures And(x, m) == x % 2 + 2 * And(x / 2, m / 2)
  {}

  lemma {:induction false} AndHigh(x: nat, n: nat, k: nat)
    requires k <= n && x < Pow2(n)
    ensures Pow2(k) <= Pow2(n) && And(x, Pow2(n) - Pow2(k)) == x - Low(x, k)
    decreases k
  {
    if k == 0 {
      AndAllOnes(x, n);
    } else {
      AndHigh(x / 2, n - 1, k - 1);
    }
  }

  lemma {:induction false} OrBound(a: nat, b: nat, n: nat)
    requires a < Pow2(n) && b < Pow2(n)
    ensures Or(a, b) < Pow2(n)
    decreases n
  {
    if n > 0 {
      OrBound(a / 2, b / 2, n - 1);
    }
  }

  lemma Powers()
    ensures Pow2(12) == 4096 && Pow2(32) == 0x1_0000_0000
  {
    assert Pow2(8) == 256;
    assert Pow2(12) == 16 * Pow2(8);
    assert Pow2(16) == 16 * Pow2(12);
    assert Pow2(20) == 16 * Pow2(16);
    assert Pow2(24) == 16 * Pow2(20);
    assert Pow2(28) == 16 * Pow2(24);
    assert Pow2(32) == 16 * Pow2(28);
  }

  function High(a: nat, k: nat): nat {
    if k == 0 then a else High(a / 2, k - 1)
  }

  function ShiftLeft(a: nat, k: nat): nat {
    if k == 0 then a else 2 * ShiftLeft(a, k - 1)
  }

  lemma {:induction false} LowHigh(a: nat, k: nat)
    ensures Low(a, k) < Pow2(k)
    ensures a == Low(a, k) + ShiftLeft(High(a, k), k)
  {
    if k > 0 {
      LowHigh(a / 2, k - 1);
    }
  }

  lemma ShiftFour(a: nat, k: nat)
    requires k >= 4
    ensures ShiftLeft(a, k) == 16 * ShiftLeft(a, k - 4)
  {
    assert ShiftLeft(a, k - 2) == 4 * ShiftLeft(a, k - 4);
  }

  lemma Offset(a: nat, low: nat, high: nat)
    requires a == low + 4096 * high && low < 4096
    ensures a % 4096 == low
  {}

  lemma ShiftPage(a: nat, k: nat)
    requires k == 12
    ensures ShiftLeft(a, k) == 4096 * a
  {
    ShiftFour(a, k);
    ShiftFour(a, k - 4);
    ShiftFour(a, k - 8);
  }

  /** The low twelve bits are the offset inside a page. */
  lemma PageBits(a: nat, k: nat)
    requires k == 12
    ensures Low(a, k) == a % 4096 && Pow2(k) == 4096 && Pow2(32) == 0x1_0000_0000
  {
    Powers();
    LowHigh(a, k);
    ShiftPage(High(a, k), k);
    Offset(a, Low(a, k), High(a, k));
  }

  function Or32(a: Word, b: Word): (r: Word)
    ensures r == Or(a, b)
  {
    Powers();
    OrBound(a, b, 32);
    Or(a, b)
  }

  lemma ClearFlags(entry: Word, k: nat)
    requires k == 12
    ensures And(entry, 0xffff_f000) == entry - entry % 4096
  {
    PageBits(entry, k);
    AndHigh(entry, 32, k);
  }

  /** entry & 0xfffff000: the page address in a page-table or directory entry. */
  function PageOf(entry: Word): (r: Word)
    ensures r == entry - entry % 4096
  {
    ClearFlags(entry, 12);
    And(entry, 0xffff_f000)
  }

  lemma Pack(address: Word, f: Word, g: Word, k: nat)
    requires address % 4096 == 0 && f < 4096 && g < 4096 && k == 12
    ensures address + f < 0x1_0000_0000 && Or32(f, g) < 4096
    ensures Or32(address + f, g) == address + Or32(f, g)
  {
    hide Or, And;
    PageBits(address, k);
    OrLow(address, f, g, k);
  }

  /** Flags put into an aligned address leave the address recoverable. */
  lemma Packing(address: Word, flags: Word)
    requires address % 4096 == 0 && flags < 4096
    ensures Or32(address, flags) == address + flags
    ensures PageOf(Or32(address, flags)) == address
  {
    assert Or(0, flags) == flags;
    hide Or, And, PageOf;
    Pack(address, 0, flags, 12);
    Offset(address + flags, flags, address / 4096);
  }

  /** More flags only change the flag part. */
  lemma MorePacking(address: Word, f: Word, g: Word)
    requires address % 4096 == 0 && f < 4096 && g < 4096
    ensures Or32(f, g) < 4096 && address + f < 0x1_0000_0000
    ensures Or32(address + f, g) == address + Or32(f, g)
  {
    hide Or, And;
    Pack(address, f, g, 12);
  }

  lemma Test(address: Word, f: Word, mask: Word, k: nat)
    requires address % 4096 == 0 && f < 4096 && mask < 4096 && k == 12
    ensures And(address + f, mask) == And(f, mask)
  {
    hide Or, And;
    PageBits(address, k);
    AndLow(address, f, mask, k);
  }

  /** A flag test on a packed entry sees only the flags. */
  lemma TestPacked(address: Word, f: Word, mask: Word)
    requires address % 4096 == 0 && f < 4096 && mask < 4096
    ensures And(Or32(address, f), mask) == And(f, mask)
  {
    hide Or, And;
    Packing(address, f);
    Test(address, f, mask, 12);
  }

  // ----- bit by bit

  /** Bit k of a, by halving. */
  predicate Bit(a: nat, k: nat) {
    if k == 0 then a % 2 == 1 else Bit(a / 2, k - 1)
  }

  lemma {:induction false} OrBit(a: nat, b: nat, k: nat)
    ensures Bit(Or(a, b), k) <==> Bit(a, k) || Bit(b, k)
    decreases k
  {
    NoBits(k);
    if a != 0 && b != 0 && k > 0 { OrBit(a / 2, b / 2, k - 1); }
  }

  lemma {:induction false} AndBit(a: nat, b: nat, k: nat)
    ensures Bit(And(a, b), k) <==> Bit(a, k) && Bit(b, k)
    decreases k
  {
    NoBits(k);
    if a != 0 && b != 0 && k > 0 { AndBit(a / 2, b / 2, k - 1); }
  }

  lemma {:induction false} NoBits(k: nat)
    ensures !Bit(0, k)
  {
    if k > 0 { NoBits(k - 1); }
  }

  /** A test finds a flag in a union exactly when it finds it in one of the parts. */
  lemma {:induction false} OrTest(a: nat, b: nat, m: nat)
    ensures And(Or(a, b), m) != 0 <==> And(a, m) != 0 || And(b, m) != 0
    decreases a + b
  {
    if a != 0 && b != 0 && m != 0 { OrTest(a / 2, b / 2, m / 2); }
  }

  /** The tests for the four flags of a page, in plain arithmetic. */
  lemma FlagBits(x: nat)
    ensures And(x, 0x01) != 0 <==> x % 2 == 1
    ensures And(x, 0x02) != 0 <==> x / 2 % 2 == 1
    ensures And(x, 0x04) != 0 <==> x / 4 % 2 == 1
    ensures And(x, 0x10) != 0 <==> x / 16 % 2 == 1
  {
    LowestBit(x);
    LowestBit(x / 2);
    LowestBit(x / 2 / 2);
    LowestBit(x / 2 / 2 / 2 / 2);
    HalfTest(x, 1);
    HalfTest(x, 2);
    HalfTest(x / 2, 1);
    HalfTest(x, 8);
    HalfTest(x / 2, 4);
    HalfTest(x / 2 / 2, 2);
    HalfTest(x / 2 / 2 / 2, 1);
    assert x / 2 / 2 == x / 4 && x / 4 / 2 / 2 == x / 16;
  }

  lemma LowestBit(x: nat)
    ensures And(x, 1) != 0 <==> x % 2 == 1
  {
    assert x != 0 ==> And(x / 2, 0) == 0;
  }

  lemma HalfTest(x: nat, m: nat)
    ensures And(x, 2 * m) != 0 <==> And(x / 2, m) != 0
  {}
}
