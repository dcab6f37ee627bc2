/** Bitwise operators on unsigned integers, defined bit by bit, and the arithmetic they reduce to
    where the kernel packs fields into one word. */
module Bits {

  function Pow2(n: nat): (r: nat)
    ensures r >= 1
  {
    if n == 0 then 1 else 2 * Pow2(n - 1)
  }

  lemma {:induction false} Pow2Add(a: nat, b: nat)
    ensures Pow2(a + b) == Pow2(a) * Pow2(b)
  {
    if a != 0 {
      Pow2Add(a - 1, b);
    }
  }

  lemma Pow2Values()
    ensures Pow2(8) == 0x100 && Pow2(12) == 0x1000 && Pow2(21) == 0x20_0000 && Pow2(30) == 0x4000_0000
    ensures Pow2(39) == 0x80_0000_0000 && Pow2(56) == 0x100_0000_0000_0000 && Pow2(64) == 0x1_0000_0000_0000_0000
  {
    assert Pow2(8) == 0x100;
    assert Pow2(9) == 0x200;
    assert Pow2(12) == 0x1000;
    Pow2Add(12, 9);
    Pow2Add(21, 9);
    Pow2Add(30, 9);
    Pow2Add(39, 9);
    Pow2Add(48, 8);
    Pow2Add(56, 8);
  }

  function Or(a: nat, b: nat): nat
    decreases a + b
  {
    if a == 0 && b == 0 then 0
    else 2 * Or(a / 2, b / 2) + (if a % 2 == 1 || b % 2 == 1 then 1 else 0)
  }

  function And(a: nat, b: nat): nat
    decreases a + b
  {
    if a == 0 || b == 0 then 0
    else 2 * And(a / 2, b / 2) + (if a % 2 == 1 && b % 2 == 1 then 1 else 0)
  }

  lemma {:induction false} OrZero(a: nat)
    ensures Or(a, 0) == a
  {
    if a != 0 {
      OrZero(a / 2);
    }
  }

  /** Joining a word shifted left by `k` with a value below 2^k is addition. */
  lemma {:induction false} OrShifted(a: nat, b: nat, k: nat)
    requires b < Pow2(k)
    ensures Or(a * Pow2(k), b) == a * Pow2(k) + b
  {
    if k == 0 {
      OrZero(a);
    } else {
      var h := a * Pow2(k - 1);
      assert a * Pow2(k) == 2 * h;
      OrShifted(a, b / 2, k - 1);
    }
  }

  /** Masking with 2^k - 1 is the remainder modulo 2^k. */
  lemma {:induction false} AndLowMask(x: nat, k: nat)
    ensures And(x, Pow2(k) - 1) == x % Pow2(k)
  {
    if k == 0 {
      assert x % 1 == 0;
    } else {
      var m := Pow2(k - 1);
      AndLowMask(x / 2, k - 1);
      AndOdd(x, m - 1);
      HalfRemainder(x, m);
      MaskStep(x, k);
    }
  }

  lemma MaskStep(x: nat, k: nat)
    requires k > 0
    requires And(x / 2, Pow2(k - 1) - 1) == (x / 2) % Pow2(k - 1)
    requires And(x, 2 * (Pow2(k - 1) - 1) + 1) == 2 * And(x / 2, Pow2(k - 1) - 1) + x % 2
    requires x % (2 * Pow2(k - 1)) == 2 * ((x / 2) % Pow2(k - 1)) + x % 2
    ensures And(x, Pow2(k) - 1) == x % Pow2(k)
  {
    hide And;
    assert Pow2(k) == 2 * Pow2(k - 1);
  }

  lemma {:induction false} AndOdd(x: nat, b: nat)
    ensures And(x, 2 * b + 1) == 2 * And(x / 2, b) + x % 2
  {
    assert (2 * b + 1) / 2 == b && (2 * b + 1) % 2 == 1;
  }

  lemma HalfRemainder(x: nat, m: nat)
    requires m > 0
    ensures x % (2 * m) == 2 * ((x / 2) % m) + x % 2
  {
    var q, r := (x / 2) / m, (x / 2) % m;
    assert x == q * (2 * m) + (2 * r + x % 2);
    RemainderUnique(x, 2 * m, q, 2 * r + x % 2);
  }

  lemma RemainderUnique(x: nat, m: nat, q: nat, r: nat)
    requires m > 0 && r < m && x == q * m + r
    ensures x % m == r && x / m == q
  {
    var d := x / m - q;
    assert d * m == r - x % m;
    MultipleBelow(d, m);
  }

  /** The only multiple of `m` strictly between -m and m is zero. */
  lemma MultipleBelow(d: int, m: int)
    requires -m < d * m < m
    ensures d == 0
  {
  }

  /** Clearing the low `k` bits of a word below 2^n. */
  lemma {:induction false} AndHighMask(x: nat, k: nat, n: nat)
    requires k <= n && x < Pow2(n)
    ensures Pow2(n) >= Pow2(k)
    ensures And(x, Pow2(n) - Pow2(k)) == x - x % Pow2(k)
  {
    if k == 0 {
      AndLowMask(x, n);
      RemainderUnique(x, Pow2(n), 0, x);
      assert x % 1 == 0;
    } else {
      var h, m := Pow2(n - 1), Pow2(k - 1);
      assert Pow2(n) == 2 * h && Pow2(k) == 2 * m;
      hide And, Pow2;
      AndHighMask(x / 2, k - 1, n - 1);
      HalfRemainder(x, m);
      AndEven(x, h - m);
      assert And(x, 2 * (h - m)) == 2 * (x / 2 - (x / 2) % m);
      assert x == 2 * (x / 2) + x % 2;
    }
  }

  lemma {:induction false} AndEven(x: nat, b: nat)
    ensures And(x, 2 * b) == 2 * And(x / 2, b)
  {
    assert (2 * b) / 2 == b && (2 * b) % 2 == 0;
  }

  /** A single bit. */
  lemma {:induction false} AndBit(a: nat)
    ensures And(a, 8) == a / 8 % 2 * 8 && And(a, 16) == a / 16 % 2 * 16
  {
    AndOne(a / 8);
    AndOne(a / 16);
    assert And(a / 4, 2) == 2 * And(a / 8, 1);
    assert And(a / 2, 4) == 2 * And(a / 4, 2);
    assert And(a, 8) == 2 * And(a / 2, 4);
    assert And(a / 8, 2) == 2 * And(a / 16, 1);
    assert And(a / 4, 4) == 2 * And(a / 8, 2);
    assert And(a / 2, 8) == 2 * And(a / 4, 4);
    assert And(a, 16) == 2 * And(a / 2, 8);
  }

  lemma {:induction false} AndOne(a: nat)
    ensures And(a, 1) == a % 2
  {
  }
}
