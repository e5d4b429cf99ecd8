/** Bitwise operations of the C sources on unsigned 32-bit values, written on
    natural numbers, and what they mean arithmetically for the masks in use. */
module Bits {

  const TWO_32 := 0x1_0000_0000

  type Byte = x: int | 0 <= x < 0x100
  type Word = x: int | 0 <= x < 0x1_0000_0000

  function Pow2(n: nat): (r: nat)
    ensures r > 0
  {
    if n == 0 then 1 else 2 * Pow2(n - 1)
  }

  /** C's `x & y`. */
  function And(x: nat, y: nat): (r: nat)
    ensures r <= x && r <= y
  {
    if x == 0 || y == 0 then 0
    else 2 * And(x / 2, y / 2) + (if x % 2 == 1 && y % 2 == 1 then 1 else 0)
  }

  /** C's `x | y`. */
  function Or(x: nat, y: nat): (r: nat)
    ensures x <= r && y <= r
  {
    if x == 0 then y
    else if y == 0 then x
    else 2 * Or(x / 2, y / 2) + (if x % 2 == 1 || y % 2 == 1 then 1 else 0)
  }

  /** C's `~x` at 32 bits. */
  function Not(x: Word): Word {
    0xFFFF_FFFF - x
  }

  lemma Halve(x: nat, c: nat)
    requires c > 0
    ensures x % (2 * c) == 2 * (x / 2 % c) + x % 2
    ensures x / (2 * c) == x / 2 / c
  {
    var q, r := x / 2 / c, x / 2 % c;
    assert x / 2 == q * c + r;
    assert x == (2 * c) * q + (2 * r + x % 2);
    DivModUnique(x, 2 * c, q, 2 * r + x % 2);
  }

  /** A quotient and a remainder in range are the quotient and the remainder. */
  lemma DivModUnique(x: int, d: int, q: int, r: int)
    requires d > 0 && x == d * q + r && 0 <= r < d
    ensures x / d == q && x % d == r
  {
    var q', r' := x / d, x % d;
    assert d * (q - q') == r' - r;
    var k := q - q';
    assert k >= 1 ==> d * k >= d;
    assert k <= -1 ==> d * k <= -d;
  }

  /** A mask of n low ones keeps the remainder modulo 2^n. */
  lemma {:induction false} AndLowMask(x: nat, n: nat)
    ensures And(x, Pow2(n) - 1) == x % Pow2(n)
  {
    if n == 0 {
    } else {
      Halve(x, Pow2(n - 1));
      AndLowMask(x / 2, n - 1);
      if x != 0 { assert (Pow2(n) - 1) / 2 == Pow2(n - 1) - 1; }
    }
  }

  /** Clearing the k low bits of an n-bit value subtracts the remainder modulo 2^k. */
  lemma {:induction false} AndHighMask(x: nat, n: nat, k: nat)
    requires k <= n && x < Pow2(n)
    ensures Pow2(k) <= Pow2(n)
    ensures And(x, Pow2(n) - Pow2(k)) == x - x % Pow2(k)
  {
    if k == 0 {
      AndLowMask(x, n);
      Small(x, Pow2(n));
    } else {
      var c, d := Pow2(k - 1), Pow2(n - 1);
      assert Pow2(k) == 2 * c && Pow2(n) == 2 * d;
      hide And, Pow2;
      AndHighMask(x / 2, n - 1, k - 1);
      Halve(x, c);
      EvenMask(x, d - c);
      assert Pow2(n) - Pow2(k) == 2 * (d - c);
    }
  }

  lemma Small(x: nat, d: nat)
    requires x < d
    ensures x % d == x && x / d == 0
  {
    DivModUnique(x, d, 0, x);
  }

  /** A mask whose lowest bit is clear works on the halves alone. */
  lemma {:induction false} EvenMask(x: nat, m: nat)
    ensures And(x, 2 * m) == 2 * And(x / 2, m)
  {
    if x != 0 && m != 0 {
      var y := 2 * m;
      assert y / 2 == m && y % 2 == 0;
    }
  }

  /** A mask of one bit tests that bit. */
  lemma {:induction false} AndOneBit(x: nat, k: nat)
    ensures And(x, Pow2(k)) == if x / Pow2(k) % 2 == 1 then Pow2(k) else 0
  {
    if k == 0 {
      if x != 0 { assert And(x / 2, 0) == 0; }
    } else {
      var c := Pow2(k - 1);
      assert Pow2(k) == 2 * c;
      hide And, Pow2;
      Halve(x, c);
      EvenMask(x, c);
      AndOneBit(x / 2, k - 1);
    }
  }

  /** A mask of k bits looks at the k low bits alone. */
  lemma {:induction false} AndBelow(x: nat, m: nat, k: nat)
    requires m < Pow2(k)
    ensures And(x, m) == And(x % Pow2(k), m)
  {
    if k > 0 && x != 0 && m != 0 {
      Halve(x, Pow2(k - 1));
      AndBelow(x / 2, m / 2, k - 1);
      var y := x % Pow2(k);
      assert y / 2 == x / 2 % Pow2(k - 1) && y % 2 == x % 2;
    }
  }

  /** Setting bits below position k leaves the bits from k up, and ors the rest. */
  lemma {:induction false} OrLow(x: nat, y: nat, k: nat)
    requires y < Pow2(k)
    ensures Or(x, y) / Pow2(k) == x / Pow2(k)
    ensures Or(x, y) % Pow2(k) == Or(x % Pow2(k), y)
  {
    if k == 0 || y == 0 {
      assert Or(x, y) == x;
      assert Or(x % Pow2(k), y) == x % Pow2(k);
    } else {
      var c := Pow2(k - 1);
      OrLow(x / 2, y / 2, k - 1);
      OrStep(x, y);
      Halve(Or(x, y), c);
      Halve(x, c);
      OrStep(x % Pow2(k), y);
    }
  }

  /** C's `x >> k`. */
  function Shr(x: nat, k: nat): nat { if k == 0 then x else Shr(x / 2, k - 1) }

  lemma {:induction false} ShrDivides(x: nat, k: nat)
    ensures Shr(x, k) == x / Pow2(k)
  {
    if k > 0 {
      ShrDivides(x / 2, k - 1);
      Halve(x, Pow2(k - 1));
    }
  }

  lemma {:induction false} OrShr(x: nat, y: nat, k: nat)
    ensures Shr(Or(x, y), k) == Or(Shr(x, k), Shr(y, k))
  {
    if k > 0 {
      OrStep(x, y);
      OrShr(x / 2, y / 2, k - 1);
    }
  }

  /** Or works on page numbers alone. */
  lemma OrPages(x: nat, y: nat)
    ensures Or(x, y) / 4096 == Or(x / 4096, y / 4096)
  {
    Pow2Values();
    ShrDivides(Or(x, y), 12);
    ShrDivides(x, 12);
    ShrDivides(y, 12);
    OrShr(x, y, 12);
    hide Or, Shr, Pow2;
  }

  /** A high half-word and a low one, joined. */
  lemma OrJoin(hi: nat, lo: nat)
    requires lo < 0x1_0000
    ensures Or(hi * 0x1_0000, lo) == hi * 0x1_0000 + lo
  {
    var x := hi * 0x1_0000;
    Pow2Values();
    OrLow(x, lo, 16);
    assert x / 0x1_0000 == hi && x % 0x1_0000 == 0;
    var w := Or(x, lo);
    assert w == w / 0x1_0000 * 0x1_0000 + w % 0x1_0000;
  }

  lemma {:induction false} OrStep(x: nat, y: nat)
    ensures Or(x, y) / 2 == Or(x / 2, y / 2)
    ensures Or(x, y) % 2 == if x % 2 == 1 || y % 2 == 1 then 1 else 0
  {}

  /** Two numbers that fit k bits have an Or that fits k bits. */
  lemma {:induction false} OrBound(x: nat, y: nat, k: nat)
    requires x < Pow2(k) && y < Pow2(k)
    ensures Or(x, y) < Pow2(k)
  {
    if x != 0 && y != 0 {
      OrBound(x / 2, y / 2, k - 1);
    }
  }

  lemma Pow2Values()
    ensures Pow2(0) == 1 && Pow2(1) == 2 && Pow2(2) == 4 && Pow2(3) == 8 && Pow2(4) == 16
    ensures Pow2(5) == 32 && Pow2(6) == 64 && Pow2(7) == 128 && Pow2(8) == 256
    ensures Pow2(9) == 512 && Pow2(10) == 1024 && Pow2(11) == 2048 && Pow2(12) == 4096
    ensures Pow2(13) == 8192 && Pow2(14) == 0x4000 && Pow2(15) == 0x8000
    ensures Pow2(16) == 0x1_0000 && Pow2(28) == 0x1000_0000 && Pow2(32) == TWO_32
  {
    assert Pow2(4) == 16;
    assert Pow2(8) == 256;
    assert Pow2(12) == 4096;
    assert Pow2(16) == 0x1_0000;
    assert Pow2(20) == 0x10_0000;
    assert Pow2(24) == 0x100_0000;
    assert Pow2(28) == 0x1000_0000;
  }
}
