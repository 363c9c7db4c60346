/** The single bits of a word, and what the operators do to them. */
module BitMasks {
  import opened Arithmetic
  import opened BitOperations

  predicate Bit(x: nat, c: nat) { if c == 0 then x % 2 == 1 else Bit(x / 2, c - 1) }

  lemma {:induction false} AndBit(x: nat, y: nat, c: nat)
    ensures Bit(And(x, y), c) <==> Bit(x, c) && Bit(y, c)
  {
    if c == 0 { } else if x == 0 { ZeroBit(c); } else { AndBit(x / 2, y / 2, c - 1); }
  }

  lemma {:induction false} OrBit(x: nat, y: nat, c: nat)
    ensures Bit(Or(x, y), c) <==> Bit(x, c) || Bit(y, c)
  {
    if c == 0 { } else if x == 0 && y == 0 { ZeroBit(c); } else { OrBit(x / 2, y / 2, c - 1); }
  }

  lemma {:induction false} ZeroBit(c: nat)
    ensures !Bit(0, c)
  {
    if c > 0 { ZeroBit(c - 1); }
  }

  lemma {:induction false} HighBit(x: nat, k: nat, c: nat)
    requires x < Pow2(k) && k <= c
    ensures !Bit(x, c)
  {
    if k == 0 { ZeroBit(c); } else { HighBit(x / 2, k - 1, c - 1); }
  }

  lemma {:induction false} OrBound(x: nat, y: nat, k: nat)
    requires x < Pow2(k) && y < Pow2(k)
    ensures Or(x, y) < Pow2(k)
  {
    if k > 0 { OrBound(x / 2, y / 2, k - 1); }
  }

  lemma {:induction false} XorBound(x: nat, y: nat, k: nat)
    requires x < Pow2(k) && y < Pow2(k)
    ensures Xor(x, y) < Pow2(k)
  {
    if k > 0 { XorBound(x / 2, y / 2, k - 1); }
  }

  lemma {:induction false} XorBit(x: nat, y: nat, c: nat)
    ensures Bit(Xor(x, y), c) <==> Bit(x, c) != Bit(y, c)
  {
    if c == 0 { } else if x == 0 && y == 0 { ZeroBit(c); } else { XorBit(x / 2, y / 2, c - 1); }
  }

  /** Bit c as a digit. */
  lemma {:induction false} BitIsDigit(x: nat, c: nat)
    ensures Bit(x, c) <==> x / Pow2(c) % 2 == 1
  {
    if c > 0 {
      BitIsDigit(x / 2, c - 1);
      DivDiv(x, 2, Pow2(c - 1));
    }
  }

  /** The complement within k bits. */
  lemma {:induction false} NotBit(x: nat, k: nat, c: nat)
    requires x < Pow2(k) && c < k
    ensures Bit(Pow2(k) - 1 - x, c) <==> !Bit(x, c)
  {
    var p := Pow2(k - 1);
    if c > 0 {
      assert (2 * p - 1 - x) / 2 == p - 1 - x / 2;
      NotBit(x / 2, k - 1, c - 1);
    }
  }

  lemma {:induction false} PowerBit(k: nat, c: nat)
    ensures Bit(Pow2(k), c) <==> c == k
  {
    if c == 0 || k == 0 {
      if c > 0 { ZeroBit(c - 1); }
    } else {
      PowerBit(k - 1, c - 1);
    }
  }

  lemma {:induction false} ModBit(x: nat, k: nat, c: nat)
    requires c < k
    ensures Bit(x % Pow2(k), c) <==> Bit(x, c)
  {
    var p := Pow2(k - 1);
    LowDigits(x, 2, p);
    Digits(x / 2 % p, x % 2, 2);
    if c > 0 { ModBit(x / 2, k - 1, c - 1); }
  }

  /** A shift to the left within k bits. */
  lemma DoubledBit(x: nat, k: nat, c: nat)
    requires c < k
    ensures Bit(2 * x % Pow2(k), c) <==> c > 0 && Bit(x, c - 1)
  {
    ModBit(2 * x, k, c);
  }

  lemma {:induction false} SameBits(x: nat, y: nat, k: nat)
    requires x < Pow2(k) && y < Pow2(k) && forall c :: 0 <= c < k ==> (Bit(x, c) <==> Bit(y, c))
    ensures x == y
  {
    if k > 0 {
      assert Bit(x, 0) <==> Bit(y, 0);
      forall c | 0 <= c < k - 1
        ensures Bit(x / 2, c) <==> Bit(y / 2, c)
      {
        assert Bit(x, c + 1) <==> Bit(y, c + 1);
      }
      SameBits(x / 2, y / 2, k - 1);
    }
  }

  /** x & (~x + 1) isolates the lowest bit of x. */
  lemma {:induction false} LowestBit(x: nat, k: nat) returns (c: nat)
    requires 0 < x < Pow2(k)
    ensures And(x, Pow2(k) - x) == Pow2(c) && Bit(x, c) && c < k
  {
    var p := Pow2(k - 1);
    if x % 2 == 1 {
      c := 0;
      assert (2 * p - x) / 2 == p - 1 - x / 2;
      Disjoint(x / 2, k - 1);
    } else {
      c := LowestBit(x / 2, k - 1);
      assert (2 * p - x) / 2 == p - x / 2;
      c := c + 1;
    }
  }

  lemma {:induction false} Disjoint(x: nat, k: nat)
    requires x < Pow2(k)
    ensures And(x, Pow2(k) - 1 - x) == 0
  {
    if k > 0 {
      var p := Pow2(k - 1);
      assert (2 * p - 1 - x) / 2 == p - 1 - x / 2;
      Disjoint(x / 2, k - 1);
    }
  }

  lemma {:induction false} RemovedBit(x: nat, k: nat, c: nat)
    requires Bit(x, k)
    ensures Pow2(k) <= x && (Bit(x - Pow2(k), c) <==> Bit(x, c) && c != k)
    decreases k
  {
    if k == 0 {
      if c > 0 { assert (x - 1) / 2 == x / 2; }
    } else {
      var p := Pow2(k - 1);
      RemovedBit(x / 2, k - 1, if c > 0 then c - 1 else 0);
      assert (x - 2 * p) / 2 == x / 2 - p;
    }
  }

  lemma {:induction false} AndAtMost(x: nat, y: nat)
    ensures And(x, y) <= x
  {
    if x > 0 { AndAtMost(x / 2, y / 2); }
  }

  lemma {:induction false} AndAtMostSecond(x: nat, y: nat)
    ensures And(x, y) <= y
  {
    if x > 0 { AndAtMostSecond(x / 2, y / 2); }
  }
}
