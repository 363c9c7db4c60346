/** The bitwise operators of C on unsigned words, as arithmetic on their values. */
module BitOperations {
  import opened Arithmetic

  function And(a: nat, b: nat): nat {
    if a == 0 then 0 else 2 * And(a / 2, b / 2) + if a % 2 == 1 && b % 2 == 1 then 1 else 0
  }

  function Or(a: nat, b: nat): nat
    decreases a + b
  {
    if a == 0 && b == 0 then 0 else 2 * Or(a / 2, b / 2) + if a % 2 == 1 || b % 2 == 1 then 1 else 0
  }

  function Xor(a: nat, b: nat): nat
    decreases a + b
  {
    if a == 0 && b == 0 then 0 else 2 * Xor(a / 2, b / 2) + if a % 2 != b % 2 then 1 else 0
  }

  function Times(x: nat, m: nat): nat { x * m }

  function Quotient(x: nat, m: nat): nat
    requires m > 0
  {
    x / m
  }

  /** Shifts of a 32-bit word; C leaves counts of 32 or more undefined. */
  function Shl(x: nat, k: nat): nat
    requires k < 32
  {
    x * Pow2(k) % TWO32
  }

  function Shr(x: nat, k: nat): nat
    requires k < 32
  {
    Quotient(x, Pow2(k))
  }

  lemma WordSizes()
    ensures Pow2(16) == 0x1_0000 && Pow2(31) == 0x8000_0000 && Pow2(32) == TWO32
    ensures Pow2(63) == 0x8000_0000_0000_0000 && Pow2(64) == TWO64
  {
    assert Pow2(8) == 256;
    Pow2Add(8, 8);
    Pow2Add(16, 16);
    Pow2Add(32, 32);
    assert Pow2(32) == 2 * Pow2(31) && Pow2(64) == 2 * Pow2(63);
  }

  // ----- masks

  lemma {:induction false} AndMask(x: nat, k: nat)
    ensures And(x, Pow2(k) - 1) == x % Pow2(k)
  {
    if k == 0 {
      AndZero(x);
    } else {
      var m := Pow2(k - 1);
      assert (2 * m - 1) / 2 == m - 1 && (2 * m - 1) % 2 == 1;
      AndMask(x / 2, k - 1);
      LowDigits(x, 2, m);
    }
  }

  lemma {:induction false} AndZero(x: nat)
    ensures And(x, 0) == 0
  {
    if x > 0 { AndZero(x / 2); }
  }

  lemma AndDouble(x: nat, u: nat)
    ensures And(x, 2 * u) == 2 * And(x / 2, u)
  {
  }

  lemma {:induction false} AndShift(x: nat, m: nat, k: nat)
    ensures And(x, Times(m, Pow2(k))) == Times(And(Quotient(x, Pow2(k)), m), Pow2(k))
  {
    if k > 0 {
      var p := Pow2(k - 1);
      AndShift(x / 2, m, k - 1);
      AndDouble(x, Times(m, p));
      DivDiv(x, 2, p);
      TimesDouble(m, p);
      TimesDouble(And(Quotient(x / 2, p), m), p);
    }
  }

  lemma TimesDouble(m: nat, p: nat)
    ensures Times(m, 2 * p) == 2 * Times(m, p)
  {
  }

  /** Testing the upper j of k + j bits. */
  lemma UpperBits(x: nat, k: nat, j: nat)
    requires x < Pow2(k + j)
    ensures And(x, Times(Pow2(j) - 1, Pow2(k))) == 0 <==> x < Pow2(k)
  {
    Pow2Add(k, j);
    AndShift(x, Pow2(j) - 1, k);
    AndMask(Quotient(x, Pow2(k)), j);
    HighZero(x, Pow2(k), Pow2(j));
  }

  lemma HighZero(x: nat, p: nat, q: nat)
    requires p > 0 && q > 0 && x < p * q
    ensures Times(Quotient(x, p) % q, p) == 0 <==> x < p
  {
    var h := Quotient(x, p);
    assert x == p * h + x % p;
    if h >= q {
      MulSum(p, q, h - q);
      assert false;
    }
    DivModUnique(h, q, 0, h);
    if h > 0 { MulPositive(h, p); MulGap(p, h); }
  }

  /** Fields that do not overlap are joined by addition. */
  lemma {:induction false} OrDisjoint(a: nat, b: nat, k: nat)
    requires b < Pow2(k)
    ensures Or(a * Pow2(k), b) == a * Pow2(k) + b
  {
    if k == 0 {
      OrZero(a);
    } else {
      var p := Pow2(k - 1);
      assert a * (2 * p) == 2 * (a * p);
      Digits(a * p, 0, 2);
      OrDisjoint(a, b / 2, k - 1);
    }
  }

  lemma {:induction false} OrZero(a: nat)
    ensures Or(a, 0) == a
  {
    if a > 0 { OrZero(a / 2); }
  }

  /** Exclusive or with all ones is the complement. */
  lemma {:induction false} XorOnes(x: nat, k: nat)
    requires x < Pow2(k)
    ensures Xor(x, Pow2(k) - 1) == Pow2(k) - 1 - x
  {
    if k > 0 {
      var m := Pow2(k - 1);
      assert (2 * m - 1) / 2 == m - 1 && (2 * m - 1) % 2 == 1;
      XorOnes(x / 2, k - 1);
    }
  }

  lemma {:induction false} XorZero(x: nat)
    ensures Xor(x, 0) == x && Xor(0, x) == x
  {
    if x > 0 { XorZero(x / 2); }
  }

  /** The test x & (x - 1) is zero exactly for powers of two: the odd part of x is 1. */
  lemma {:induction false} PowerOfTwoTest(odd: nat, k: nat)
    requires odd % 2 == 1
    ensures Pow2(k) * odd > 0
    ensures And(Pow2(k) * odd, Pow2(k) * odd - 1) == 0 <==> odd == 1
  {
    MulPositive(Pow2(k), odd);
    if k == 0 {
      AndSelf(odd / 2);
    } else {
      var y := Pow2(k - 1) * odd;
      assert Pow2(k) * odd == 2 * y;
      PowerOfTwoTest(odd, k - 1);
      assert (2 * y - 1) / 2 == y - 1;
    }
  }

  lemma {:induction false} AndSelf(x: nat)
    ensures And(x, x) == x
  {
    if x > 0 { AndSelf(x / 2); }
  }
}
