/** Bitwise operations on natural numbers, as the C code applies them to unsigned words, and
    what they mean arithmetically on disjoint bit fields. */
module Bits {

  function Pow2(k: nat): (p: nat)
    ensures p > 0
  {
    if k == 0 then 1 else 2 * Pow2(k - 1)
  }

  function And(a: nat, b: nat): nat {
    if a == 0 || b == 0 then 0 else (if a % 2 == 1 && b % 2 == 1 then 1 else 0) + 2 * And(a / 2, b / 2)
  }

  function Or(a: nat, b: nat): nat {
    if a == 0 then b else if b == 0 then a
    else (if a % 2 == 1 || b % 2 == 1 then 1 else 0) + 2 * Or(a / 2, b / 2)
  }

  /** a & ~b */
  function AndNot(a: nat, b: nat): nat {
    if a == 0 then 0 else (if a % 2 == 1 && b % 2 == 0 then 1 else 0) + 2 * AndNot(a / 2, b / 2)
  }

  /** The low k bits of a. */
  function Low(a: nat, k: nat): nat {
    if k == 0 then 0 else a % 2 + 2 * Low(a / 2, k - 1)
  }

  /** k ones. */
  function Ones(k: nat): nat {
    if k == 0 then 0 else 1 + 2 * Ones(k - 1)
  }

  lemma {:induction false} OnesValue(k: nat)
    ensures Ones(k) == Pow2(k) - 1
  {
    if k > 0 { OnesValue(k - 1); }
  }

  lemma {:induction false} LowIsMod(a: nat, k: nat)
    ensures Low(a, k) == a % Pow2(k)
    decreases k
  {
    if k > 0 {
      LowIsMod(a / 2, k - 1);
      ModHalf(a, Pow2(k - 1));
    }
  }

  lemma ModHalf(a: nat, m: nat)
    requires m > 0
    ensures a % (2 * m) == 2 * (a / 2 % m) + a % 2
  {
    var q := a / 2 / m;
    var r := a / 2 % m;
    assert a / 2 == q * m + r;
    assert a == (2 * m) * q + (2 * r + a % 2) by { assert 2 * (q * m) == (2 * m) * q; }
    DivUnique(a, 2 * m, q, 2 * r + a % 2);
  }

  lemma MulMonotone(m: int, d: int)
    requires m > 0 && d >= 1
    ensures m * d >= m
  {
  }

  lemma DivUnique(a: int, m: int, q: int, r: int)
    requires m > 0 && a == m * q + r && 0 <= r < m
    ensures a % m == r && a / m == q
  {
    var q' := a / m;
    assert a == m * q' + a % m;
    assert m * (q - q') == m * q - m * q' && m * (q' - q) == m * q' - m * q;
    if q > q' {
      MulMonotone(m, q - q');
    } else if q < q' {
      MulMonotone(m, q' - q);
    }
  }

  /** Masking keeps the low bits. */
  lemma {:induction false} AndOnes(a: nat, k: nat)
    ensures And(a, Ones(k)) == Low(a, k)
    decreases k
  {
    if a == 0 {
      LowZero(k);
    } else if k > 0 {
      AndOnes(a / 2, k - 1);
    }
  }

  lemma {:induction false} LowZero(k: nat)
    ensures Low(0, k) == 0
  {
    if k > 0 { LowZero(k - 1); }
  }

  /** Clearing a mask of ones clears the low bits. */
  lemma {:induction false} ClearOnes(a: nat, k: nat)
    ensures Low(a, k) <= a && AndNot(a, Ones(k)) == a - Low(a, k)
    decreases k, a
  {
    if a == 0 {
      LowZero(k);
    } else if k == 0 {
      AndNotZero(a);
    } else {
      ClearOnes(a / 2, k - 1);
    }
  }

  lemma {:induction false} AndNotZero(a: nat)
    ensures AndNot(a, 0) == a
  {
    if a > 0 { AndNotZero(a / 2); }
  }

  /** Clearing the top bit of a (k + 1)-bit number. */
  lemma {:induction false} ClearTop(a: nat, k: nat)
    requires a < 2 * Pow2(k)
    ensures AndNot(a, Pow2(k)) == Low(a, k)
    decreases k
  {
    if a == 0 {
      LowZero(k);
    } else if k > 0 {
      ClearTop(a / 2, k - 1);
    }
  }

  /** Clearing bits below k changes nothing when the low k bits are clear. */
  lemma {:induction false} ClearAbsent(a: nat, b: nat, k: nat)
    requires Low(a, k) == 0 && b < Pow2(k)
    ensures AndNot(a, b) == a
    decreases k
  {
    if a > 0 {
      if k == 0 {
        AndNotZero(a);
      } else {
        ClearAbsent(a / 2, b / 2, k - 1);
      }
    }
  }

  /** Clearing two masks is clearing one after the other. */
  lemma {:induction false} ClearBoth(a: nat, b: nat, c: nat)
    ensures AndNot(a, Or(b, c)) == AndNot(AndNot(a, b), c)
    decreases a
  {
    if a > 0 {
      if b == 0 {
        AndNotZero(a);
      } else if c == 0 {
        AndNotZero(AndNot(a, b));
      } else {
        ClearBoth(a / 2, b / 2, c / 2);
        var x := AndNot(a, b);
        assert x % 2 == (if a % 2 == 1 && b % 2 == 0 then 1 else 0) && x / 2 == AndNot(a / 2, b / 2);
      }
    }
  }

  /** Setting a field below k in a word whose low k bits are clear. */
  lemma {:induction false} OrLow(a: nat, b: nat, k: nat)
    requires Low(a, k) == 0 && b < Pow2(k)
    ensures Or(a, b) == a + b
    decreases k
  {
    if a > 0 && b > 0 {
      OrLow(a / 2, b / 2, k - 1);
    }
  }

  lemma {:induction false} OrCommutes(a: nat, b: nat)
    ensures Or(a, b) == Or(b, a)
    decreases a
  {
    if a > 0 && b > 0 { OrCommutes(a / 2, b / 2); }
  }

  /** Values of the powers the register fields use. */
  lemma PowValues()
    ensures Pow2(3) == 8 && Pow2(4) == 16 && Pow2(8) == 0x100 && Pow2(12) == 0x1000 && Pow2(16) == 0x1_0000
    ensures Pow2(17) == 0x2_0000 && Pow2(24) == 0x100_0000 && Pow2(26) == 0x400_0000
    ensures Pow2(28) == 0x1000_0000 && Pow2(31) == 0x8000_0000
  {
    assert Pow2(4) == 16;
    assert Pow2(8) == 0x100;
    assert Pow2(12) == 0x1000;
    assert Pow2(16) == 0x1_0000;
    assert Pow2(20) == 0x10_0000;
    assert Pow2(24) == 0x100_0000;
    assert Pow2(28) == 0x1000_0000;
  }
}
