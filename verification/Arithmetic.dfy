/** Division with remainder and powers of two. */
module Arithmetic {

  const TWO32 := 0x1_0000_0000
  const TWO63 := 0x8000_0000_0000_0000
  const TWO64 := 0x1_0000_0000_0000_0000

  /** The 64-bit word of a number, and the number that a word stands for in two's complement. */
  function Wrap64(x: int): (w: nat)
    ensures w < TWO64
  {
    x % TWO64
  }

  function Signed64(w: nat): int { if w >= TWO63 then w - TWO64 else w }

  function Abs(x: int): nat { if x < 0 then -x else x }

  /** Division that truncates toward zero, as section 6.5.5 of ISO C11 defines it. */
  function TruncDiv(a: int, b: int): int
    requires b != 0
  {
    var q := Abs(a) / Abs(b);
    if (a < 0) == (b < 0) then q else 0 - q
  }

  function TruncMod(a: int, b: int): int
    requires b != 0
  {
    var r := Abs(a) % Abs(b);
    if a < 0 then 0 - r else r
  }

  function Pow2(n: nat): (p: nat)
    ensures p > 0
  {
    if n == 0 then 1 else 2 * Pow2(n - 1)
  }

  lemma {:induction false} Pow2Add(a: nat, b: nat)
    ensures Pow2(a + b) == Pow2(a) * Pow2(b)
  {
    if a > 0 {
      Pow2Add(a - 1, b);
      assert Pow2(a + b) == 2 * Pow2(a + b - 1);
      assert 2 * (Pow2(a - 1) * Pow2(b)) == (2 * Pow2(a - 1)) * Pow2(b);
    }
  }

  lemma {:induction false} Pow2Monotone(a: nat, b: nat)
    requires a <= b
    ensures Pow2(a) <= Pow2(b)
  {
    if a < b { Pow2Monotone(a, b - 1); }
  }

  lemma MulGap(m: nat, d: int)
    ensures d >= 1 ==> m * d >= m
    ensures d <= -1 ==> m * d <= 0 - m
  {
  }

  /** Quotient and remainder are determined by the equation they satisfy. */
  lemma DivModUnique(x: int, m: nat, q: int, r: int)
    requires m > 0 && x == m * q + r && 0 <= r < m
    ensures x / m == q && x % m == r
  {
    var d := x / m - q;
    assert m * (x / m) == m * q + m * d;
    MulGap(m, d);
  }

  lemma Digits(hi: int, lo: nat, m: nat)
    requires lo < m
    ensures (hi * m + lo) / m == hi && (hi * m + lo) % m == lo
  {
    DivModUnique(hi * m + lo, m, hi, lo);
  }

  lemma MulSum(a: int, b: int, c: int)
    ensures a * (b + c) == a * b + a * c
  {
  }

  lemma MulGroup(a: int, b: int, c: int)
    ensures a * (b * c) == (a * b) * c
  {
  }

  lemma MulAtMost(m: nat, r: nat, n: nat)
    requires r < n
    ensures m * r + m <= m * n
  {
    MulSum(m, r, 1);
    MulSum(m, r + 1, n - r - 1);
  }

  lemma MulPositive(m: nat, n: nat)
    requires m > 0 && n > 0
    ensures m * n > 0
  {
  }

  /** A summand may be reduced first. */
  lemma AddReduced(x: int, d: int, m: nat)
    requires m > 0
    ensures (x % m + d) % m == (x + d) % m
  {
    var y := x % m + d;
    MulSum(m, x / m, y / m);
    DivModUnique(x + d, m, x / m + y / m, y % m);
  }

  /** A number from two digits, the higher of which is itself split in two. */
  lemma ThreeDigits(x: nat, m: nat, n: nat, q: nat, r: nat, z: nat)
    requires m > 0 && n > 0 && r < n && z < m && x == m * (n * q + r) + z
    ensures m * n > 0 && x / (m * n) == q && x % (m * n) == m * r + z
  {
    MulPositive(m, n);
    MulSum(m, n * q, r);
    MulGroup(m, n, q);
    MulAtMost(m, r, n);
    DivModUnique(x, m * n, q, m * r + z);
  }

  lemma DivDiv(x: nat, m: nat, n: nat)
    requires m > 0 && n > 0
    ensures m * n > 0 && x / m / n == x / (m * n)
  {
    ThreeDigits(x, m, n, x / m / n, x / m % n, x % m);
  }

  lemma LowDigits(x: nat, m: nat, n: nat)
    requires m > 0 && n > 0
    ensures m * n > 0 && x % (m * n) == x / m % n * m + x % m
  {
    ThreeDigits(x, m, n, x / m / n, x / m % n, x % m);
  }

  /** The low field of width s and the field of width b above it. */
  lemma SplitField(x: nat, b: nat, s: nat)
    ensures x % Pow2(b + s) == x / Pow2(s) % Pow2(b) * Pow2(s) + x % Pow2(s)
  {
    Pow2Add(s, b);
    LowDigits(x, Pow2(s), Pow2(b));
  }

  // ----- n by n tables stored row by row

  /** Where row i and column j are stored. */
  function Cell(n: nat, i: int, j: int): int { n * i + j }

  lemma CellFits(n: nat, i: int, j: int)
    requires n > 0 && 0 <= i < n && 0 <= j < n
    ensures 0 <= Cell(n, i, j) < n * n && Cell(n, i, j) / n == i && Cell(n, i, j) % n == j
  {
    DivModUnique(n * i + j, n, i, j);
    MulAtMost(n, i, n);
    if i > 0 { MulPositive(n, i); }
  }

  lemma NextRow(n: nat, i: nat)
    ensures n * i + n == n * (i + 1)
  {
  }

  lemma RowFits(n: nat, p: nat)
    requires 0 < n && p < n * n
    ensures 0 <= p / n < n && 0 <= p % n < n && Cell(n, p / n, p % n) == p
  {
  }
}
