/** 64-bit division out of 32-bit halves, as in the routines of int64.c. */
module LongDivision {
  import opened Arithmetic
  import opened BitOperations
  import opened CountZeros

  const TOP_BIT := 0x8000_0000

  /** A 64-bit word seen as two 32-bit words. */
  datatype Halves = Halves(high: nat, low: nat) {
    function All(): nat { high * TWO32 + low }

    predicate Fits() { high < TWO32 && low < TWO32 }
  }

  // ----- fields moved across the two halves

  lemma Widths(k: nat)
    requires 1 <= k <= 31
    ensures Pow2(k) * Pow2(32 - k) == TWO32
  {
    WordSizes();
    Pow2Add(k, 32 - k);
  }

  /** Moving up drops what leaves the word. */
  lemma MovedUp(x: nat, p: nat, c: nat)
    requires p * c == TWO32 && p > 0 && c > 0
    ensures x * c % TWO32 == Times(x % p, c) <= TWO32 - c
  {
    var h, l := x / p, x % p;
    Regroup(p, c, h, l);
    MulAtMost(c, l, p);
    Digits(h, l * c, TWO32);
  }

  lemma Regroup(p: int, c: int, h: int, l: int)
    ensures (p * h + l) * c == h * (p * c) + l * c
  {
  }

  /** The low k bits of x on top, and below them all of y but its low k bits. */
  lemma Joined(x: nat, y: nat, k: nat)
    requires 1 <= k <= 31 && y < TWO32
    ensures Or(Shl(x, 32 - k), Shr(y, k)) == Times(x % Pow2(k), Pow2(32 - k)) + Quotient(y, Pow2(k)) < TWO32
    ensures Shl(x, 32 - k) == Times(x % Pow2(k), Pow2(32 - k))
  {
    var p, c := Pow2(k), Pow2(32 - k);
    Widths(k);
    MovedUp(x, p, c);
    Smaller(y, p, c);
    OrDisjoint(x % p, Quotient(y, p), 32 - k);
  }

  lemma Smaller(y: nat, p: nat, c: nat)
    requires p > 0 && c > 0 && y < p * c
    ensures Quotient(y, p) < c
  {
  }

  /** What the three ways to load r and q leave: a shifted right by sr, and the bits shifted out on top. */
  ghost predicate Split(a: nat, sr: nat, q: Halves, r: Halves) {
    && q.Fits() && r.Fits() && 1 <= sr <= 63
    && r.All() == a / Pow2(sr) && q.All() == Times(a % Pow2(sr), Pow2(64 - sr))
  }

  lemma SplitBelow(high: nat, low: nat, p: nat, c: nat)
    requires p * c == TWO32 && p > 0 && c > 0 && high < TWO32 && low < TWO32
    ensures (high * TWO32 + low) / p == high / p * TWO32 + (high % p * c + low / p)
    ensures (high * TWO32 + low) % p == low % p
  {
    var x := high * c + low / p;
    MulGroup(p, high, c);
    assert p * (high * c) == high * (p * c);
    MulSum(p, high * c, low / p);
    DivModUnique(high * TWO32 + low, p, x, low % p);
    Regroup(p, c, high / p, high % p);
  }

  lemma SplitAbove(high: nat, low: nat, p: nat, c: nat)
    requires p * c == TWO32 && p > 0 && c > 0 && high < TWO32 && low < TWO32
    ensures p * TWO32 > 0 && (high * TWO32 + low) / (p * TWO32) == high / p
    ensures (high * TWO32 + low) % (p * TWO32) * c == (high % p * c + low / p) * TWO32 + low % p * c
  {
    var n := high * TWO32 + low;
    MulPositive(p, TWO32);
    Digits(high, low, TWO32);
    DivDiv(n, TWO32, p);
    LowDigits(n, TWO32, p);
    LowAbove(high % p, low, p, c);
  }

  lemma LowAbove(h: nat, low: nat, p: nat, c: nat)
    requires p * c == TWO32 && p > 0 && c > 0
    ensures (h * TWO32 + low) * c == (h * c + low / p) * TWO32 + low % p * c
  {
  }

  /** n.all >> sr in r, and n.all << (64 - sr) in q, by words. */
  method LoadBoth(n: Halves, sr: nat) returns (q: Halves, r: Halves)
    requires n.Fits() && 1 <= sr <= 63
    ensures Split(n.All(), sr, q, r)
  {
    if sr == 32 {
      q := Halves(n.low, 0);
      r := Halves(0, n.high);
      WordSizes();
      Digits(n.high, n.low, TWO32);
    } else if sr < 32 {
      q := Halves(Shl(n.low, 32 - sr), 0);
      r := Halves(Shr(n.high, sr), Or(Shl(n.high, 32 - sr), Shr(n.low, sr)));
      LoadedBelow(n, sr);
    } else {
      q := Halves(Or(Shl(n.high, 64 - sr), Shr(n.low, sr - 32)), Shl(n.low, 64 - sr));
      r := Halves(0, Shr(n.high, sr - 32));
      LoadedAbove(n, sr);
    }
  }

  lemma LoadedBelow(n: Halves, sr: nat)
    requires n.Fits() && 1 <= sr <= 31
    ensures Split(n.All(), sr, Halves(Shl(n.low, 32 - sr), 0),
                  Halves(Shr(n.high, sr), Or(Shl(n.high, 32 - sr), Shr(n.low, sr))))
  {
    var p, c := Pow2(sr), Pow2(32 - sr);
    Widths(sr);
    Joined(n.low, 0, sr);
    Joined(n.high, n.low, sr);
    SplitBelow(n.high, n.low, p, c);
    QuotientAtMost(n.high, p);
    TopScale(32 - sr);
    MulGroup(n.low % p, c, TWO32);
  }

  lemma TopScale(k: nat)
    ensures Pow2(k + 32) == Pow2(k) * TWO32
  {
    WordSizes();
    Pow2Add(k, 32);
  }

  lemma QuotientAtMost(x: nat, p: nat)
    requires p > 0
    ensures 0 <= x / p <= x
  {
    if x / p > x {
      MulAtMost(p, x, x / p);
      MulGap(x + 1, p);
      assert false;
    }
  }

  lemma LoadedAbove(n: Halves, sr: nat)
    requires n.Fits() && 33 <= sr <= 63
    ensures Split(n.All(), sr, Halves(Or(Shl(n.high, 64 - sr), Shr(n.low, sr - 32)), Shl(n.low, 64 - sr)),
                  Halves(0, Shr(n.high, sr - 32)))
  {
    Widths(sr - 32);
    Joined(n.low, 0, sr - 32);
    Joined(n.high, n.low, sr - 32);
    QuotientAtMost(n.high, Pow2(sr - 32));
    TopScale(sr - 32);
    AboveWords(n, Pow2(sr - 32), Pow2(64 - sr));
  }

  lemma AboveWords(n: Halves, p: nat, c: nat)
    requires n.Fits() && p * c == TWO32 && p > 0 && c > 0
    ensures p * TWO32 > 0 && Quotient(n.high, p) == Quotient(n.All(), p * TWO32)
    ensures Halves(Times(n.high % p, c) + Quotient(n.low, p), Times(n.low % p, c)).All()
            == Times(n.All() % (p * TWO32), c)
  {
    SplitAbove(n.high, n.low, p, c);
  }

  // ----- one round of shift and subtract

  function TopBit(x: nat): nat { if x >= TOP_BIT then 1 else 0 }

  /** A word shifted left by one, with a bit coming in. */
  lemma DoubledWord(x: nat, bit: nat)
    requires x < TWO32 && bit <= 1
    ensures Or(Shl(x, 1), bit) == 2 * x - TWO32 * TopBit(x) + bit
  {
    assert Pow2(1) == 2;
    Digits(TopBit(x), 2 * (x - TOP_BIT * TopBit(x)), TWO32);
    OrDisjoint(x - TOP_BIT * TopBit(x), bit, 1);
  }

  lemma TopBitShifted(x: nat)
    requires x < TWO32
    ensures Shr(x, 31) == TopBit(x)
  {
    WordSizes();
    Digits(TopBit(x), x - TOP_BIT * TopBit(x), TOP_BIT);
  }

  /** r:q shifted left by one as a 128-bit word, with carry coming in. */
  method ShiftPair(q: Halves, r: Halves, carry: nat) returns (q': Halves, r': Halves)
    requires q.Fits() && r.Fits() && r.All() < TWO63 && carry <= 1
    ensures q'.Fits() && r'.Fits()
    ensures r'.All() == 2 * r.All() + TopBit(q.high) && q'.All() == 2 * q.All() + carry - TWO64 * TopBit(q.high)
  {
    TopBitShifted(r.low);
    TopBitShifted(q.high);
    TopBitShifted(q.low);
    DoubledWord(r.high, TopBit(r.low));
    DoubledWord(r.low, TopBit(q.high));
    DoubledWord(q.high, TopBit(q.low));
    DoubledWord(q.low, carry);
    r' := Halves(Or(Shl(r.high, 1), Shr(r.low, 31)), Or(Shl(r.low, 1), Shr(q.high, 31)));
    q' := Halves(Or(Shl(q.high, 1), Shr(q.low, 31)), Or(Shl(q.low, 1), carry));
  }

  /** An arithmetic shift of a 64-bit word by 63: its sign in every bit. */
  function SignFill(x: nat): nat { if x >= TWO63 then TWO64 - 1 else 0 }

  lemma FilledMasks(d: nat)
    requires d < TWO64
    ensures And(TWO64 - 1, 1) == 1 && And(0, 1) == 0 && And(d, TWO64 - 1) == d && And(d, 0) == 0
  {
    WordSizes();
    AndMask(TWO64 - 1, 1);
    AndMask(d, 64);
    AndZero(d);
    Digits(0, d, TWO64);
  }

  lemma SignOfDifference(d: nat, r: nat)
    requires d < TWO64 && r < 2 * d && r < TWO64 && (d > TWO63 ==> r >= TWO63)
    ensures SignFill((d - r - 1) % TWO64) == if r >= d then TWO64 - 1 else 0
  {
    if r >= d {
      Digits(-1, TWO64 + d - r - 1, TWO64);
    } else {
      Digits(0, d - r - 1, TWO64);
    }
  }

  /** The sign of d - r - 1 tells r >= d, as d and r are either both small or both large. */
  method SubtractIfNotLess(d: nat, r: nat) returns (carry: nat, rest: nat)
    requires d < TWO64 && r < 2 * d && r < TWO64 && (d > TWO63 ==> r >= TWO63)
    ensures carry == (if r >= d then 1 else 0) && rest == (if r >= d then r - d else r)
  {
    var s := SignFill((d - r - 1) % TWO64);
    SignOfDifference(d, r);
    FilledMasks(d);
    if r >= d { Digits(0, r - d, TWO64); } else { Digits(0, r, TWO64); }
    carry := And(s, 1);
    rest := (r - And(d, s)) % TWO64;
  }

  /** The division so far: a without its low sr bits is split by d into the quotient bits found and r. */
  ghost predicate Dividing(a: nat, d: nat, sr: nat, q: Halves, r: Halves, carry: nat, found: nat) {
    && q.Fits() && r.Fits() && carry <= 1 && sr <= 63
    && r.All() < d < TWO64 && (d > TWO63 && sr > 0 ==> sr == 1 && r.All() < TWO63 <= 2 * r.All() + TopBit(q.high))
    && q.All() == Times(a % Pow2(sr), Pow2(64 - sr)) + found && found < Pow2(64 - sr)
    && a / Pow2(sr) == Times(2 * found + carry, d) + r.All()
  }

  function OfAll(x: nat): (h: Halves)
    requires x < TWO64
    ensures h.Fits() && h.All() == x
  {
    Halves(x / TWO32, x % TWO32)
  }

  function BitAt(a: nat, k: nat): nat { Quotient(a, Pow2(k)) % 2 }

  lemma NextBit(a: nat, sr: nat)
    requires sr > 0
    ensures a / Pow2(sr - 1) == 2 * (a / Pow2(sr)) + BitAt(a, sr - 1)
    ensures a % Pow2(sr) == BitAt(a, sr - 1) * Pow2(sr - 1) + a % Pow2(sr - 1)
  {
    DivDiv(a, Pow2(sr - 1), 2);
    LowDigits(a, Pow2(sr - 1), 2);
  }

  /** The bit that leaves q on top is the next bit of a, and q moves on by one. */
  lemma QuotientMoves(a: nat, sr: nat, q: Halves, carry: nat, found: nat)
    requires 1 <= sr <= 63 && q.Fits() && found < Pow2(64 - sr)
    requires q.All() == Times(a % Pow2(sr), Pow2(64 - sr)) + found
    ensures TopBit(q.high) == BitAt(a, sr - 1)
    ensures 2 * q.All() + carry - TWO64 * TopBit(q.high)
            == Times(a % Pow2(sr - 1), Pow2(65 - sr)) + (2 * found + carry)
  {
    var p, c, bit := Pow2(sr - 1), Pow2(64 - sr), BitAt(a, sr - 1);
    NextBit(a, sr);
    WordSizes();
    Pow2Add(sr - 1, 64 - sr);
    MovesApart(a % p, p, c, bit, found);
    assert Pow2(65 - sr) == 2 * c;
    assert q.All() == bit * TWO63 + (a % p * c + found);
    assert bit == 0 || bit == 1;
    TimesDouble(a % p, c);
  }

  lemma MovesApart(low: nat, p: nat, c: nat, bit: nat, found: nat)
    requires p * c == TWO63 && low < p && found < c
    ensures (bit * p + low) * c == bit * TWO63 + low * c && 0 <= low * c + found < TWO63
  {
  }

  lemma RemainderMoves(a: nat, d: nat, sr: nat, r: nat, digits: nat, bit: nat, carry: nat)
    requires sr > 0 && a / Pow2(sr) == Times(digits, d) + r && bit == BitAt(a, sr - 1) && carry <= 1
    ensures a / Pow2(sr - 1) == Times(2 * digits + carry, d) + (if carry == 1 then 2 * r + bit - d else 2 * r + bit)
  {
    NextBit(a, sr);
    assert (2 * digits + carry) * d == 2 * (digits * d) + carry * d;
  }

  method Round(ghost a: nat, d: nat, sr: nat, q: Halves, r: Halves, carry: nat, ghost found: nat)
    returns (q': Halves, r': Halves, carry': nat)
    requires sr > 0 && Dividing(a, d, sr, q, r, carry, found)
    ensures Dividing(a, d, sr - 1, q', r', carry', 2 * found + carry)
  {
    QuotientMoves(a, sr, q, carry, found);
    q', r' := ShiftPair(q, r, carry);
    var rest;
    carry', rest := SubtractIfNotLess(d, r'.All());
    r' := OfAll(rest);
    RemainderMoves(a, d, sr, r.All(), 2 * found + carry, TopBit(q.high), carry');
    assert Pow2(65 - sr) == 2 * Pow2(64 - sr);
  }

  // ----- the division

  /** The meaning of an unsigned division with remainder. */
  ghost predicate IsDivision(a: nat, b: nat, quotient: nat, rem: nat) {
    a == Times(quotient, b) + rem && rem < b && quotient <= a
  }

  lemma FitsQuotient(a: nat, b: nat, quotient: nat, rem: nat)
    requires a == Times(quotient, b) + rem && rem < b
    ensures IsDivision(a, b, quotient, rem)
  {
    if quotient > 0 { MulSum(quotient, 1, b - 1); if b > 1 { MulPositive(quotient, b - 1); } }
  }

  /** The loop of the division, from r:q loaded to the quotient and the remainder. */
  method ShiftSubtract(ghost a: nat, d: nat, start: nat, q0: Halves, r0: Halves) returns (quotient: nat, rem: nat)
    requires a < TWO64 && Dividing(a, d, start, q0, r0, 0, 0)
    ensures IsDivision(a, d, quotient, rem)
  {
    var sr, q, r, carry := start, q0, r0, 0;
    ghost var found := 0;
    while sr > 0
      invariant Dividing(a, d, sr, q, r, carry, found)
    {
      ghost var more := 2 * found + carry;
      q, r, carry := Round(a, d, sr, q, r, carry, found);
      found := more;
      sr := sr - 1;
    }
    DivisionEnds(a, d, q, r, carry, found);
    quotient := Or(q.All() * 2 % TWO64, carry);
    rem := r.All();
  }

  lemma DivisionEnds(a: nat, d: nat, q: Halves, r: Halves, carry: nat, found: nat)
    requires a < TWO64 && Dividing(a, d, 0, q, r, carry, found)
    ensures IsDivision(a, d, Or(q.All() * 2 % TWO64, carry), r.All())
  {
    assert Pow2(0) == 1 && a % 1 == 0 && a / 1 == a && Times(0, Pow2(64)) == 0;
    assert q.All() == found;
    FitsQuotient(a, d, 2 * found + carry, r.All());
    LastShift(found, carry);
  }

  lemma LastShift(x: nat, carry: nat)
    requires carry <= 1 && 2 * x + carry < TWO64
    ensures Or(x * 2 % TWO64, carry) == 2 * x + carry
  {
    assert Pow2(1) == 2;
    Digits(0, 2 * x, TWO64);
    OrDisjoint(x, carry, 1);
  }

  lemma StartDividing(a: nat, b: nat, sr: nat, q: Halves, r: Halves)
    requires a < TWO64 && b < TWO64 && Split(a, sr, q, r) && r.All() < b
    requires b > TWO63 ==> sr == 1 && a >= TWO63
    ensures Dividing(a, b, sr, q, r, 0, 0)
  {
    if sr == 1 {
      QuotientMoves(a, sr, q, 0, 0);
      NextBit(a, 1);
      assert Pow2(1) == 2 && Pow2(0) == 1;
    }
  }

  method DivideByLoop(n: Halves, d: Halves, sr: nat) returns (quotient: nat, rem: nat)
    requires n.Fits() && d.Fits() && 1 <= sr <= 63 && Quotient(n.All(), Pow2(sr)) < d.All()
    requires d.All() > TWO63 ==> sr == 1 && n.All() >= TWO63
    ensures IsDivision(n.All(), d.All(), quotient, rem)
  {
    var q, r := LoadBoth(n, sr);
    StartDividing(n.All(), d.All(), sr, q, r);
    quotient, rem := ShiftSubtract(n.All(), d.All(), sr, q, r);
  }

  // ----- how far to shift

  lemma BitsOfAll(n: Halves, bits: nat)
    requires n.Fits() && n.high > 0 && bits == Bits(n.high)
    ensures 1 <= bits <= 32 && Pow2(31 + bits) <= n.All() < Pow2(32 + bits)
    ensures n.All() >= TWO63 <==> bits == 32
  {
    BitsBound(n.high);
    WordSizes();
    BitsAtMost(n.high, 32);
    BitsAtMost(n.high, 31);
    TopScale(bits);
    TopScale(bits - 1);
  }

  lemma ShiftedBelow(a: nat, sr: nat, e: nat, b: nat)
    requires a < Pow2(sr + e) && Pow2(e) <= b
    ensures Quotient(a, Pow2(sr)) < b
  {
    Pow2Add(sr, e);
    Smaller(a, Pow2(sr), Pow2(e));
  }

  /** With leading zeros aligned and one more shift, r starts below d. */
  lemma AlignedHigh(n: Halves, d: Halves, bn: nat, bd: nat)
    requires n.Fits() && d.Fits() && n.high > 0 && d.high > 0
    requires Bits(n.high) == bn >= bd == Bits(d.high)
    ensures Quotient(n.All(), Pow2(1 + bn - bd)) < d.All() && bn <= 32
    ensures d.All() > TWO63 ==> bn == bd && n.All() >= TWO63
  {
    BitsOfAll(n, bn);
    BitsOfAll(d, bd);
    ShiftedBelow(n.All(), 1 + bn - bd, 31 + bd, d.All());
  }

  lemma ShorterIsLess(n: Halves, d: Halves, bn: nat, bd: nat)
    requires n.Fits() && d.Fits() && n.high > 0 && d.high > 0
    requires Bits(n.high) == bn < bd == Bits(d.high)
    ensures n.All() < d.All()
  {
    BitsOfAll(n, bn);
    BitsOfAll(d, bd);
    var low, high := 32 + bn, 31 + bd;
    Pow2Monotone(low, high);
  }

  lemma AlignedLow(n: Halves, d: Halves, bn: nat, bd: nat, sr: nat)
    requires n.Fits() && d.Fits() && n.high > 0 && d.high == 0 && d.low > 0
    requires Bits(n.high) == bn && 2 <= bd == Bits(d.low) <= 32 && sr == 33 + bn - bd
    ensures 1 <= sr <= 63 && Quotient(n.All(), Pow2(sr)) < d.All() < TWO63
  {
    BitsOfAll(n, bn);
    BitsBound(d.low);
    ShiftedBelow(n.All(), sr, bd - 1, d.All());
  }

  // ----- the branches without a loop

  /** d has no low word: the high words alone are divided. */
  lemma HighDivision(n: Halves, d: Halves)
    requires n.Fits() && d.Fits() && d.low == 0 && d.high > 0
    ensures n.high % d.high < d.high
    ensures IsDivision(n.All(), d.All(), n.high / d.high, Halves(n.high % d.high, n.low).All())
  {
  }

  /** What x & (x - 1) == 0 gives: masks and shifts by x divide. */
  lemma PowerOfTwo(x: nat, c: nat, odd: nat)
    requires x == Times(Pow2(c), odd) && odd % 2 == 1 && x > 0 && And(x, x - 1) == 0
    ensures x == Pow2(c) && forall y: nat :: And(y, x - 1) == y % x
  {
    PowerOfTwoTest(odd, c);
    forall y: nat
      ensures And(y, x - 1) == y % x
    {
      AndMask(y, c);
    }
  }

  lemma LowMask(n: Halves, d: nat, sr: nat)
    requires n.Fits() && 1 <= sr <= 31 && d == Pow2(sr)
    ensures var q := Halves(Shr(n.high, sr), Or(Shl(n.high, 32 - sr), Shr(n.low, sr)));
            IsDivision(n.All(), d, q.All(), n.low % d)
  {
    var q := Halves(Shr(n.high, sr), Or(Shl(n.high, 32 - sr), Shr(n.low, sr)));
    LoadedBelow(n, sr);
    Widths(sr);
    SplitBelow(n.high, n.low, d, Pow2(32 - sr));
    assert q.All() == Quotient(n.All(), d) && n.low % d == n.All() % d;
    WordDivision(n.All(), d);
  }

  lemma WordDivision(a: nat, b: nat)
    requires b > 0
    ensures IsDivision(a, b, Quotient(a, b), a % b)
  {
    FitsQuotient(a, b, Quotient(a, b), a % b);
  }

  lemma DivisionOfLess(a: nat, b: nat)
    requires a < b
    ensures IsDivision(a, b, 0, a)
  {
  }

  lemma DivisionByOne(a: nat)
    ensures IsDivision(a, 1, a, 0)
  {
  }

  lemma NotPowerOfTwo(x: nat)
    requires x > 0 && And(x, x - 1) != 0
    ensures Bits(x) >= 2
  {
  }

  /** __udivmoddi4, for every divisor but zero, for which it divides by zero itself. */
  method UDivMod4(a: nat, b: nat) returns (quotient: nat, rem: nat)
    requires a < TWO64 && 0 < b < TWO64
    ensures IsDivision(a, b, quotient, rem)
  {
    var n, d := OfAll(a), OfAll(b);
    if n.high == 0 {
      if d.high == 0 {
        WordDivision(n.low, d.low);
        return n.low / d.low, n.low % d.low;
      }
      DivisionOfLess(a, b);
      return 0, n.low;
    }
    if d.low == 0 {
      quotient, rem := DivideByHigh(n, d);
    } else if d.high == 0 {
      quotient, rem := DivideByLow(n, d);
    } else {
      quotient, rem := DivideAligned(n, d, 31);
    }
  }

  /** Both high words are set: shift by the difference of their lengths, unless d is longer. */
  method DivideAligned(n: Halves, d: Halves, limit: nat) returns (quotient: nat, rem: nat)
    requires n.Fits() && d.Fits() && n.high > 0 && d.high > 0
    requires limit == 31 || (limit == 30 && Bits(d.high) > 1)
    ensures IsDivision(n.All(), d.All(), quotient, rem)
  {
    var cd := Clzsi2(d.high);
    var cn := Clzsi2(n.high);
    var sr := (cd - cn) % TWO32;
    assert sr == if cd < cn then TWO32 + cd - cn else cd - cn;
    if sr > limit {
      ShorterIsLess(n, d, 32 - cn, 32 - cd);
      DivisionOfLess(n.All(), d.All());
      return 0, n.All();
    }
    sr := sr + 1;
    AlignedHigh(n, d, 32 - cn, 32 - cd);
    quotient, rem := DivideByLoop(n, d, sr);
  }

  method DivideByHigh(n: Halves, d: Halves) returns (quotient: nat, rem: nat)
    requires n.Fits() && d.Fits() && n.high > 0 && d.low == 0 && d.high > 0
    ensures IsDivision(n.All(), d.All(), quotient, rem)
  {
    HighDivision(n, d);
    if n.low == 0 {
      return n.high / d.high, Halves(n.high % d.high, 0).All();
    }
    if And(d.high, d.high - 1) == 0 {
      var c, odd := Ctzsi2(d.high);
      PowerOfTwo(d.high, c, odd);
      return Shr(n.high, c), Halves(And(n.high, d.high - 1), n.low).All();
    }
    NotPowerOfTwo(d.high);
    quotient, rem := DivideAligned(n, d, 30);
  }

  method DivideByLow(n: Halves, d: Halves) returns (quotient: nat, rem: nat)
    requires n.Fits() && d.Fits() && n.high > 0 && d.high == 0 && d.low > 0
    ensures IsDivision(n.All(), d.All(), quotient, rem)
  {
    if And(d.low, d.low - 1) == 0 {
      rem := And(n.low, d.low - 1);
      var sr, odd := Ctzsi2(d.low);
      PowerOfTwo(d.low, sr, odd);
      if d.low == 1 {
        AndZero(n.low);
        DivisionByOne(n.All());
        return n.All(), rem;
      }
      assert Pow2(0) == 1;
      LowMask(n, d.low, sr);
      return Halves(Shr(n.high, sr), Or(Shl(n.high, 32 - sr), Shr(n.low, sr))).All(), rem;
    }
    NotPowerOfTwo(d.low);
    quotient, rem := DivideByWord(n, d);
  }

  method DivideByWord(n: Halves, d: Halves) returns (quotient: nat, rem: nat)
    requires n.Fits() && d.Fits() && n.high > 0 && d.high == 0 && d.low > 0 && Bits(d.low) >= 2
    ensures IsDivision(n.All(), d.All(), quotient, rem)
  {
    var cd := Clzsi2(d.low);
    var cn := Clzsi2(n.high);
    var sr := (33 + cd - cn) % TWO32;
    AlignedLow(n, d, 32 - cn, 32 - cd, 33 + cd - cn);
    Digits(0, 33 + cd - cn, TWO32);
    quotient, rem := DivideByLoop(n, d, sr);
  }
}
