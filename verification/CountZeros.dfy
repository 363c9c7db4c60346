/** Counting the zeros at either end of a word without a loop. */
module CountZeros {
  import opened Arithmetic
  import opened BitOperations

  // ----- counting zeros

  /** The number of significant bits. */
  function Bits(x: nat): nat { if x == 0 then 0 else 1 + Bits(x / 2) }

  lemma {:induction false} BitsBound(x: nat)
    requires x > 0
    ensures Bits(x) > 0 && Pow2(Bits(x) - 1) <= x < Pow2(Bits(x))
  {
    if x > 1 { BitsBound(x / 2); }
  }

  lemma {:induction false} BitsAtMost(x: nat, k: nat)
    ensures Bits(x) <= k <==> x < Pow2(k)
  {
    if k > 0 { BitsAtMost(x / 2, k - 1); }
  }

  lemma {:induction false} BitsShifted(x: nat, k: nat)
    ensures Bits(Quotient(x, Pow2(k))) == if Bits(x) > k then Bits(x) - k else 0
  {
    if k > 0 {
      BitsShifted(x / 2, k - 1);
      DivDiv(x, 2, Pow2(k - 1));
    }
  }

  lemma ClzStep(x: nat, h: nat, t: nat)
    requires 0 < x < Pow2(2 * h)
    requires t == if And(x, Times(Pow2(h) - 1, Pow2(h))) == 0 then h else 0
    ensures 0 < Quotient(x, Pow2(h - t)) < Pow2(h) && Bits(Quotient(x, Pow2(h - t))) == Bits(x) - (h - t)
  {
    UpperBits(x, h, h);
    BitsAtMost(x, h);
    BitsAtMost(x, 2 * h);
    BitsShifted(x, h - t);
    BitsAtMost(Quotient(x, Pow2(h - t)), h);
  }

  lemma Masks()
    ensures Times(Pow2(16) - 1, Pow2(16)) == 0xFFFF_0000 && Times(Pow2(8) - 1, Pow2(8)) == 0xFF00
    ensures Times(Pow2(4) - 1, Pow2(4)) == 0xF0 && Times(Pow2(2) - 1, Pow2(2)) == 0xC
    ensures Pow2(16) - 1 == 0xFFFF && Pow2(8) - 1 == 0xFF && Pow2(4) - 1 == 0xF && Pow2(2) - 1 == 0x3
    ensures Pow2(32) == TWO32
  {
    WordSizes();
    assert Pow2(8) == 256 && Pow2(4) == 16 && Pow2(2) == 4;
  }

  /** One halving: keep the upper half of the bits if it is not empty, else count it. */
  method ClzRound(x: nat, r: nat, h: nat, mask: nat) returns (y: nat, s: nat)
    requires 0 < h <= 16 && 0 < x < Pow2(2 * h) && mask == Times(Pow2(h) - 1, Pow2(h))
    ensures 0 < y < Pow2(h) && h - Bits(y) + s == 2 * h - Bits(x) + r && r <= s <= r + h
  {
    var t := if And(x, mask) == 0 then h else 0;
    ClzStep(x, h, t);
    y := Shr(x, h - t);
    s := r + t;
  }

  /** The last two bits, without a branch. */
  lemma ClzLast(x: nat)
    requires 0 < x < 4
    ensures And((2 - x) % TWO32, if And(x, 2) == 0 then TWO32 - 1 else 0) == 2 - Bits(x)
  {
    AndAllOnes((2 - x) % TWO32);
  }

  lemma AndAllOnes(x: nat)
    requires x < TWO32
    ensures And(x, TWO32 - 1) == x && And(x, 0) == 0
  {
    WordSizes();
    Digits(0, x, TWO32);
    AndMask(x, 32);
    AndZero(x);
  }

  /** __clzsi2: the number of leading zeros of a word that is not zero. */
  method Clzsi2(a: nat) returns (c: nat)
    requires 0 < a < TWO32
    ensures c <= 31 && Bits(a) == 32 - c
  {
    Masks();
    var x := a;
    x, c := ClzRound(x, 0, 16, 0xFFFF_0000);
    x, c := ClzRound(x, c, 8, 0xFF00);
    x, c := ClzRound(x, c, 4, 0xF0);
    x, c := ClzRound(x, c, 2, 0xC);
    ClzLast(x);
    BitsBound(a);
    c := c + And((2 - x) % TWO32, if And(x, 2) == 0 then TWO32 - 1 else 0);
  }

  lemma Exactly(x: nat, p: nat)
    requires p > 0 && x % p == 0
    ensures x == p * Quotient(x, p)
  {
  }

  lemma CtzStep(a: nat, x: nat, r: nat, h: nat, t: nat)
    requires a == Times(Pow2(r), x) && x % Pow2(2 * h) != 0
    requires t == if And(x, Pow2(h) - 1) == 0 then h else 0
    ensures a == Times(Pow2(r + t), Quotient(x, Pow2(t))) && Quotient(x, Pow2(t)) % Pow2(h) != 0
  {
    AndMask(x, h);
    Pow2Add(h, h);
    LowDigits(x, Pow2(h), Pow2(h));
    var y := Quotient(x, Pow2(t));
    if t == 0 {
      assert Pow2(0) == 1 && y == x;
    } else {
      Pow2Add(r, h);
      Exactly(x, Pow2(h));
      MulGroup(Pow2(r), Pow2(h), y);
    }
  }

  /** One halving: count the lower half of the bits if it is empty, and shift it out. */
  method CtzRound(ghost a: nat, x: nat, r: nat, h: nat, mask: nat) returns (y: nat, s: nat)
    requires 0 < h <= 16 && a == Times(Pow2(r), x) && x % Pow2(2 * h) != 0 && mask == Pow2(h) - 1
    ensures a == Times(Pow2(s), y) && y % Pow2(h) != 0
  {
    var t := if And(x, mask) == 0 then h else 0;
    CtzStep(a, x, r, h, t);
    y := Shr(x, t);
    s := r + t;
  }

  lemma CtzLast(a: nat, x: nat, c: nat)
    requires a == Times(Pow2(c), x) && x % 4 != 0
    ensures And(x, 3) == x % 4
    ensures var t := And(2 - Shr(x % 4, 1), if And(x % 4, 1) == 0 then TWO32 - 1 else 0);
            t == (if x % 2 == 0 then 1 else 0) && a == Times(Pow2(c + t), if x % 2 == 0 then x / 2 else x)
            && (x % 2 == 0 ==> x / 2 % 2 == 1)
  {
    assert Pow2(2) == 4 && Pow2(1) == 2;
    AndMask(x, 2);
    AndMask(x % 4, 1);
    AndAllOnes(2 - x % 4 / 2);
    if x % 2 == 0 { MulGroup(Pow2(c), 2, x / 2); }
  }

  lemma CountFits(a: nat, c: nat, odd: nat)
    requires a < TWO32 && a == Times(Pow2(c), odd) && odd % 2 == 1
    ensures c <= 31
  {
    MulAtMost(Pow2(c), 0, odd);
    WordSizes();
    if c >= 32 { Pow2Monotone(32, c); }
  }

  /** __ctzsi2: the number of trailing zeros of a word that is not zero. */
  method Ctzsi2(a: nat) returns (c: nat, ghost odd: nat)
    requires 0 < a < TWO32
    ensures a == Times(Pow2(c), odd) && odd % 2 == 1 && c <= 31
  {
    Masks();
    var x := a;
    x, c := CtzRound(a, x, 0, 16, 0xFFFF);
    x, c := CtzRound(a, x, c, 8, 0xFF);
    x, c := CtzRound(a, x, c, 4, 0xF);
    x, c := CtzRound(a, x, c, 2, 0x3);
    CtzLast(a, x, c);
    var t;
    ghost var y := x;
    x := And(x, 3);
    t := And(2 - Shr(x, 1), if And(x, 1) == 0 then TWO32 - 1 else 0);
    c := c + t;
    odd := if y % 2 == 0 then y / 2 else y;
    CountFits(a, c, odd);
  }
}
