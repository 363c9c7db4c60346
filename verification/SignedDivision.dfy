/** The signed wrappers of int64.c, on 64-bit two's complement words. */
module SignedDivision {
  import opened Arithmetic
  import opened BitOperations
  import opened LongDivision

  /** What C demands of quotient and remainder. */
  ghost predicate IsTruncating(a: int, b: int, q: int, r: int) {
    && a == q * b + r && Abs(r) < Abs(b)
    && (r == 0 || (r < 0) == (a < 0)) && (q == 0 || (q < 0) == ((a < 0) != (b < 0)))
  }

  lemma TruncatingDivision(a: int, b: int)
    requires b != 0
    ensures IsTruncating(a, b, TruncDiv(a, b), TruncMod(a, b))
  {
    var x, y := Abs(a), Abs(b);
    var u, v := x / y, x % y;
    assert x == y * u + v;
    assert Abs(TruncDiv(a, b)) == u && Abs(TruncMod(a, b)) == v;
    SameSigns(a, b, TruncDiv(a, b), TruncMod(a, b));
  }

  lemma TruncatingIsUnique(a: int, b: int, q: int, r: int)
    requires b != 0 && IsTruncating(a, b, q, r)
    ensures q == TruncDiv(a, b) && r == TruncMod(a, b)
  {
    SameSigns(a, b, q, r);
    DivModUnique(Abs(a), Abs(b), Abs(q), Abs(r));
  }

  lemma SameSigns(a: int, b: int, q: int, r: int)
    requires b != 0 && (r == 0 || (r < 0) == (a < 0)) && (q == 0 || (q < 0) == ((a < 0) != (b < 0)))
    ensures a == q * b + r <==> Abs(a) == Abs(b) * Abs(q) + Abs(r)
  {
  }

  /** (x ^ s) - s negates x when s is all ones and keeps it when s is zero. */
  lemma ConditionalNegation(x: nat, s: nat)
    requires x < TWO64 && (s == 0 || s == TWO64 - 1)
    ensures Wrap64(Xor(x, s) - s) == if s == 0 then x else Wrap64(0 - x)
  {
    WordSizes();
    if s == 0 {
      XorZero(x);
      Digits(0, x, TWO64);
    } else {
      XorOnes(x, 64);
      assert Xor(x, s) - s == 0 - x;
    }
  }

  lemma AbsOfWord(x: nat)
    requires x < TWO64
    ensures Wrap64(Xor(x, SignFill(x)) - SignFill(x)) == Abs(Signed64(x))
  {
    ConditionalNegation(x, SignFill(x));
    if x >= TWO63 { Digits(-1, TWO64 - x, TWO64); }
  }

  lemma SignsCombined(a: nat, b: nat)
    ensures Xor(SignFill(a), SignFill(b)) == if (Signed64(a) < 0) == (Signed64(b) < 0) then 0 else TWO64 - 1
    requires a < TWO64 && b < TWO64
  {
    WordSizes();
    XorZero(TWO64 - 1);
    XorOnes(TWO64 - 1, 64);
  }

  lemma WordOf(x: int, y: int, k: int)
    requires x == y + k * TWO64
    ensures Wrap64(x) == Wrap64(y)
  {
  }

  /** __divdi3: the truncated quotient, modulo 2^64. */
  method DivDi3(a: nat, b: nat) returns (q: nat)
    requires a < TWO64 && 0 < b < TWO64
    ensures q == Wrap64(TruncDiv(Signed64(a), Signed64(b)))
  {
    var sa, sb := SignFill(a), SignFill(b);
    AbsOfWord(a);
    AbsOfWord(b);
    var x, y := Wrap64(Xor(a, sa) - sa), Wrap64(Xor(b, sb) - sb);
    sa := Xor(sa, sb);
    var u, r := UDivMod4(x, y);
    DivModUnique(x, y, u, r);
    SignRestored(a, b, u);
    q := Wrap64(Xor(u, sa) - sa);
  }

  lemma SignRestored(a: nat, b: nat, u: nat)
    requires a < TWO64 && 0 < b < TWO64 && u < TWO64 && u == Quotient(Abs(Signed64(a)), Abs(Signed64(b)))
    ensures var s := Xor(SignFill(a), SignFill(b)); Wrap64(Xor(u, s) - s) == Wrap64(TruncDiv(Signed64(a), Signed64(b)))
  {
    SignsCombined(a, b);
    ConditionalNegation(u, Xor(SignFill(a), SignFill(b)));
    Digits(0, u, TWO64);
  }

  /** __moddi3: the remainder, with the sign of the dividend. */
  method ModDi3(a: nat, b: nat) returns (r: nat)
    requires a < TWO64 && 0 < b < TWO64
    ensures r == Wrap64(TruncMod(Signed64(a), Signed64(b)))
  {
    var s := SignFill(b);
    AbsOfWord(a);
    AbsOfWord(b);
    var y := Wrap64(Xor(b, s) - s);
    s := SignFill(a);
    var x := Wrap64(Xor(a, s) - s);
    var u, rest := UDivMod4(x, y);
    DivModUnique(x, y, u, rest);
    RemainderRestored(a, b, rest);
    r := Wrap64(Xor(rest, s) - s);
  }

  lemma RemainderRestored(a: nat, b: nat, rest: nat)
    requires a < TWO64 && 0 < b < TWO64 && rest < TWO64 && rest == Abs(Signed64(a)) % Abs(Signed64(b))
    ensures Wrap64(Xor(rest, SignFill(a)) - SignFill(a)) == Wrap64(TruncMod(Signed64(a), Signed64(b)))
  {
    ConditionalNegation(rest, SignFill(a));
    Digits(0, rest, TWO64);
  }

  /** __divmoddi4: the quotient of __divdi3, and the remainder that goes with it. */
  method DivModDi4(a: nat, b: nat) returns (q: nat, r: nat)
    requires a < TWO64 && 0 < b < TWO64
    ensures q == Wrap64(TruncDiv(Signed64(a), Signed64(b))) && r == Wrap64(TruncMod(Signed64(a), Signed64(b)))
  {
    q := DivDi3(a, b);
    r := Wrap64(a - q * b);
    RemainderOfQuotient(a, b, q);
  }

  lemma RemainderOfQuotient(a: nat, b: nat, q: nat)
    requires a < TWO64 && 0 < b < TWO64 && q == Wrap64(TruncDiv(Signed64(a), Signed64(b)))
    ensures Wrap64(a - q * b) == Wrap64(TruncMod(Signed64(a), Signed64(b)))
  {
    var x, y := Signed64(a), Signed64(b);
    var t := TruncDiv(x, y);
    TruncatingDivision(x, y);
    var k, i, j := t / TWO64, (a - x) / TWO64, (b - y) / TWO64;
    assert q == t - k * TWO64 && a == x + i * TWO64 && b == y + j * TWO64;
    assert q * b == t * y + (t * j - k * b) * TWO64 by { ProductOfWords(t, k, y, j, b); }
    WordOf(a - q * b, x - t * y, i - (t * j - k * b));
  }

  lemma ProductOfWords(t: int, k: int, y: int, j: int, b: int)
    requires b == y + j * TWO64
    ensures (t - k * TWO64) * b == t * y + (t * j - k * b) * TWO64
  {
  }

  /** The word is the value itself but for the one quotient that overflows. */
  lemma OnlyMinimumOverflows(a: int, b: int)
    requires -TWO63 <= a < TWO63 && -TWO63 <= b < TWO63 && b != 0
    ensures Signed64(Wrap64(TruncDiv(a, b))) == TruncDiv(a, b) <==> !(a == -TWO63 && b == -1)
    ensures Signed64(Wrap64(TruncMod(a, b))) == TruncMod(a, b)
  {
    var q, r := TruncDiv(a, b), TruncMod(a, b);
    TruncatingDivision(a, b);
    QuotientAtMost(Abs(a), Abs(b));
    if Abs(b) > 1 { QuotientAtMostHalf(Abs(a), Abs(b)); }
    SignedWord(q);
    SignedWord(r);
  }

  lemma QuotientAtMostHalf(x: nat, y: nat)
    requires y > 1
    ensures 2 * (x / y) <= x
  {
    assert x == y * (x / y) + x % y;
    MulAtMost(x / y, 1, y);
  }

  lemma SignedWord(x: int)
    requires -TWO63 <= x <= TWO63
    ensures Signed64(Wrap64(x)) == if x == TWO63 then -TWO63 else x
  {
  }
}
