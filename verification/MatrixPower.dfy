/** Square matrices stored row by row, their products and powers, and the recurrence of fib.c. */
module MatrixPower {
  import opened Arithmetic

  ghost predicate IsMatrix(m: nat, a: seq<int>) { m > 0 && |a| == m * m }

  function At(m: nat, a: seq<int>, i: int, j: int): int
    requires m > 0 && |a| == m * m && 0 <= i < m && 0 <= j < m
  {
    CellFits(m, i, j);
    a[Cell(m, i, j)]
  }

  /** The first k products of row i of a with column j of b. */
  ghost function Dot(m: nat, a: seq<int>, b: seq<int>, i: int, j: int, k: nat): int
    requires IsMatrix(m, a) && IsMatrix(m, b) && 0 <= i < m && 0 <= j < m && k <= m
  {
    if k == 0 then 0 else Dot(m, a, b, i, j, k - 1) + At(m, a, i, k - 1) * At(m, b, k - 1, j)
  }

  ghost function Entry(m: nat, a: seq<int>, b: seq<int>, p: int): int
    requires IsMatrix(m, a) && IsMatrix(m, b) && 0 <= p < m * m
  {
    RowFits(m, p);
    Dot(m, a, b, p / m, p % m, m)
  }

  ghost function Product(m: nat, a: seq<int>, b: seq<int>): (c: seq<int>)
    requires IsMatrix(m, a) && IsMatrix(m, b)
    ensures IsMatrix(m, c)
  {
    seq(m * m, p requires 0 <= p < m * m => Entry(m, a, b, p))
  }

  lemma ProductAt(m: nat, a: seq<int>, b: seq<int>, i: int, j: int)
    requires IsMatrix(m, a) && IsMatrix(m, b) && 0 <= i < m && 0 <= j < m
    ensures At(m, Product(m, a, b), i, j) == Dot(m, a, b, i, j, m)
  {
    CellFits(m, i, j);
  }

  ghost function Identity(m: nat): (a: seq<int>)
    requires m > 0
    ensures IsMatrix(m, a)
  {
    seq(m * m, p requires 0 <= p < m * m => if p / m == p % m then 1 else 0)
  }

  ghost function Power(m: nat, a: seq<int>, n: nat): (p: seq<int>)
    requires IsMatrix(m, a)
    ensures IsMatrix(m, p)
  {
    if n == 0 then Identity(m) else Product(m, Power(m, a, n - 1), a)
  }

  // ----- the laws of the product

  /** One more column of b and row of c adds its part to each product with a. */
  lemma {:induction false} OneMoreTerm(m: nat, a: seq<int>, b: seq<int>, c: seq<int>, i: int, j: int, k: nat, l: nat)
    requires IsMatrix(m, a) && IsMatrix(m, b) && IsMatrix(m, c) && 0 <= i < m && 0 <= j < m && k <= m && l < m
    ensures Nested(m, a, b, c, i, j, k, l + 1)
            == Nested(m, a, b, c, i, j, k, l) + Dot(m, a, b, i, l, k) * At(m, c, l, j)
  {
    if k > 0 {
      OneMoreTerm(m, a, b, c, i, j, k - 1, l);
      Distributed(At(m, a, i, k - 1), Dot(m, b, c, k - 1, j, l), At(m, b, k - 1, l), At(m, c, l, j),
                  Dot(m, a, b, i, l, k - 1));
    }
  }

  lemma Distributed(x: int, d: int, y: int, z: int, e: int)
    ensures x * (d + y * z) == x * d + (x * y) * z && (e + x * y) * z == e * z + (x * y) * z
  {
  }

  /** The sum over rows of b up to k of entries of a, each with the first l products of b and c. */
  ghost function Nested(m: nat, a: seq<int>, b: seq<int>, c: seq<int>, i: int, j: int, k: nat, l: nat): int
    requires IsMatrix(m, a) && IsMatrix(m, b) && IsMatrix(m, c) && 0 <= i < m && 0 <= j < m && k <= m && l <= m
  {
    if k == 0 then 0 else Nested(m, a, b, c, i, j, k - 1, l) + At(m, a, i, k - 1) * Dot(m, b, c, k - 1, j, l)
  }

  lemma {:induction false} NestedEmpty(m: nat, a: seq<int>, b: seq<int>, c: seq<int>, i: int, j: int, k: nat)
    requires IsMatrix(m, a) && IsMatrix(m, b) && IsMatrix(m, c) && 0 <= i < m && 0 <= j < m && k <= m
    ensures Nested(m, a, b, c, i, j, k, 0) == 0
  {
    if k > 0 { NestedEmpty(m, a, b, c, i, j, k - 1); }
  }

  lemma {:induction false} LeftNested(m: nat, a: seq<int>, b: seq<int>, c: seq<int>, i: int, j: int, l: nat)
    requires IsMatrix(m, a) && IsMatrix(m, b) && IsMatrix(m, c) && 0 <= i < m && 0 <= j < m && l <= m
    ensures Dot(m, Product(m, a, b), c, i, j, l) == Nested(m, a, b, c, i, j, m, l)
  {
    if l == 0 {
      NestedEmpty(m, a, b, c, i, j, m);
    } else {
      LeftNested(m, a, b, c, i, j, l - 1);
      ProductAt(m, a, b, i, l - 1);
      OneMoreTerm(m, a, b, c, i, j, m, l - 1);
    }
  }

  lemma {:induction false} RightNested(m: nat, a: seq<int>, b: seq<int>, c: seq<int>, i: int, j: int, k: nat)
    requires IsMatrix(m, a) && IsMatrix(m, b) && IsMatrix(m, c) && 0 <= i < m && 0 <= j < m && k <= m
    ensures Dot(m, a, Product(m, b, c), i, j, k) == Nested(m, a, b, c, i, j, k, m)
  {
    if k > 0 {
      RightNested(m, a, b, c, i, j, k - 1);
      ProductAt(m, b, c, k - 1, j);
    }
  }

  lemma Associative(m: nat, a: seq<int>, b: seq<int>, c: seq<int>)
    requires IsMatrix(m, a) && IsMatrix(m, b) && IsMatrix(m, c)
    ensures Product(m, Product(m, a, b), c) == Product(m, a, Product(m, b, c))
  {
    forall p | 0 <= p < m * m ensures Entry(m, Product(m, a, b), c, p) == Entry(m, a, Product(m, b, c), p) {
      RowFits(m, p);
      LeftNested(m, a, b, c, p / m, p % m, m);
      RightNested(m, a, b, c, p / m, p % m, m);
    }
  }

  lemma {:induction false} IdentityDots(m: nat, b: seq<int>, i: int, j: int, k: nat)
    requires IsMatrix(m, b) && 0 <= i < m && 0 <= j < m && k <= m
    ensures Dot(m, Identity(m), b, i, j, k) == if i < k then At(m, b, i, j) else 0
    ensures Dot(m, b, Identity(m), i, j, k) == if j < k then At(m, b, i, j) else 0
  {
    if k > 0 {
      IdentityDots(m, b, i, j, k - 1);
      CellFits(m, i, k - 1);
      CellFits(m, k - 1, j);
    }
  }

  lemma IdentityLaws(m: nat, b: seq<int>)
    requires IsMatrix(m, b)
    ensures Product(m, Identity(m), b) == b && Product(m, b, Identity(m)) == b
  {
    forall p | 0 <= p < m * m ensures Entry(m, Identity(m), b, p) == b[p] && Entry(m, b, Identity(m), p) == b[p] {
      RowFits(m, p);
      IdentityDots(m, b, p / m, p % m, m);
    }
  }

  lemma {:induction false} PowerAdd(m: nat, a: seq<int>, x: nat, y: nat)
    requires IsMatrix(m, a)
    ensures Product(m, Power(m, a, x), Power(m, a, y)) == Power(m, a, x + y)
  {
    if y == 0 {
      IdentityLaws(m, Power(m, a, x));
    } else {
      PowerAdd(m, a, x, y - 1);
      Associative(m, Power(m, a, x), Power(m, a, y - 1), a);
    }
  }

  // ----- 32-bit words

  ghost function Reduced(a: seq<int>): seq<int> { seq(|a|, p requires 0 <= p < |a| => a[p] % TWO32) }

  lemma ProductOfWords(x: int, y: int)
    ensures (x % TWO32) * (y % TWO32) % TWO32 == x * y % TWO32
  {
    var p, q, r, s := x / TWO32, x % TWO32, y / TWO32, y % TWO32;
    assert x == TWO32 * p + q && y == TWO32 * r + s;
    assert x * y == TWO32 * (p * y + q * r) + q * s by {
      MulSum(y, TWO32 * p, q);
      MulGroup(y, TWO32, p);
      MulSum(q, TWO32 * r, s);
    }
    SameRemainder(x * y, q * s, p * y + q * r);
  }

  lemma SameRemainder(x: int, y: int, k: int)
    requires x == TWO32 * k + y
    ensures x % TWO32 == y % TWO32
  {
  }

  lemma SumOfWords(x: int, y: int)
    ensures (x % TWO32 + y % TWO32) % TWO32 == (x + y) % TWO32
  {
  }

  lemma ReducedAt(m: nat, a: seq<int>, i: int, j: int)
    requires IsMatrix(m, a) && 0 <= i < m && 0 <= j < m
    ensures At(m, Reduced(a), i, j) == At(m, a, i, j) % TWO32
  {
    CellFits(m, i, j);
  }

  lemma NextOfWords(d: int, e: int, x: int, y: int, u: int, v: int)
    requires d % TWO32 == e % TWO32 && u == x % TWO32 && v == y % TWO32
    ensures (e + u * v) % TWO32 == (d + x * y) % TWO32
  {
    ProductOfWords(x, y);
    SumOfWords(d, x * y);
    SumOfWords(e, u * v);
  }

  lemma {:induction false} DotOfReduced(m: nat, a: seq<int>, b: seq<int>, i: int, j: int, k: nat)
    requires IsMatrix(m, a) && IsMatrix(m, b) && 0 <= i < m && 0 <= j < m && k <= m
    ensures Dot(m, Reduced(a), Reduced(b), i, j, k) % TWO32 == Dot(m, a, b, i, j, k) % TWO32
  {
    if k > 0 {
      DotOfReduced(m, a, b, i, j, k - 1);
      ReducedAt(m, a, i, k - 1);
      ReducedAt(m, b, k - 1, j);
      NextOfWords(Dot(m, a, b, i, j, k - 1), Dot(m, Reduced(a), Reduced(b), i, j, k - 1),
                  At(m, a, i, k - 1), At(m, b, k - 1, j), At(m, Reduced(a), i, k - 1), At(m, Reduced(b), k - 1, j));
    }
  }

  /** Reducing the factors does not change the reduced product. */
  lemma ProductOfReduced(m: nat, a: seq<int>, b: seq<int>)
    requires IsMatrix(m, a) && IsMatrix(m, b)
    ensures Reduced(Product(m, Reduced(a), Reduced(b))) == Reduced(Product(m, a, b))
  {
    forall p | 0 <= p < m * m ensures Entry(m, Reduced(a), Reduced(b), p) % TWO32 == Entry(m, a, b, p) % TWO32 {
      RowFits(m, p);
      DotOfReduced(m, a, b, p / m, p % m, m);
    }
  }

  // ----- the recurrence

  /** Each term is the sum of the m before it; the first m are 0, ..., 0, 1. */
  ghost function Term(m: nat, t: nat): nat
    requires m > 0
    decreases t, 1
  {
    if t < m - 1 then 0 else if t == m - 1 then 1 else Sum(m, t - m, m)
  }

  /** The k terms from the one numbered lo. */
  ghost function Sum(m: nat, lo: nat, k: nat): nat
    requires m > 0
    decreases lo + k, 0
  {
    if k == 0 then 0 else Sum(m, lo, k - 1) + Term(m, lo + k - 1)
  }

  /** Each row but the last picks the next entry of a column; the last row adds the whole column. */
  ghost function Companion(m: nat): (a: seq<int>)
    requires m > 0
    ensures IsMatrix(m, a)
  {
    seq(m * m, p requires 0 <= p < m * m => if p / m == m - 1 || p % m == p / m + 1 then 1 else 0)
  }

  lemma {:induction false} CompanionDot(m: nat, b: seq<int>, i: int, j: int, k: nat, lo: nat)
    requires IsMatrix(m, b) && 0 <= i < m && 0 <= j < m && k <= m
    requires forall x :: 0 <= x < m ==> At(m, b, x, j) == Term(m, lo + x)
    ensures Dot(m, Companion(m), b, i, j, k)
            == if i == m - 1 then Sum(m, lo, k) else if i + 1 < k then Term(m, lo + i + 1) else 0
  {
    if k > 0 {
      CompanionDot(m, b, i, j, k - 1, lo);
      CellFits(m, i, k - 1);
      assert At(m, b, k - 1, j) == Term(m, lo + (k - 1));
    }
  }

  /** The last column of the n-th power holds m terms of the recurrence, from the n-th on. */
  lemma {:induction false} LastColumn(m: nat, n: nat, i: nat)
    requires m > 0 && i < m
    ensures At(m, Power(m, Companion(m), n), i, m - 1) == Term(m, n + i)
  {
    CellFits(m, i, m - 1);
    if n > 0 {
      var a, b, last := Companion(m), Power(m, Companion(m), n - 1), m - 1;
      forall x | 0 <= x < m ensures At(m, b, x, last) == Term(m, n - 1 + x) { LastColumn(m, n - 1, x); }
      PowerAdd(m, a, 1, n - 1);
      IdentityLaws(m, a);
      assert Power(m, a, 1) == a;
      ProductAt(m, a, b, i, m - 1);
      CompanionDot(m, b, i, m - 1, m, n - 1);
    }
  }

  // ----- the benchmark, on its buffers

  class FibBench {
    const M: nat
    const A: array<int>
    const ans: array<int>
    const T: array<int>
    const tmp: array<int>

    ghost predicate Valid() {
      && M > 0 && A.Length == ans.Length == T.Length == tmp.Length == M * M
      && A != ans && A != T && A != tmp && ans != T && ans != tmp && T != tmp
    }

    /** The matrix buffers, as the prepare routine allocates them. */
    constructor (m: nat)
      requires m > 0
      ensures Valid() && M == m && fresh(A) && fresh(ans) && fresh(T) && fresh(tmp)
    {
      M := m;
      A, ans, T, tmp := new int[m * m], new int[m * m], new int[m * m], new int[m * m];
    }

    /** One entry of the product: set to zero, then each term added, over 32-bit words. */
    method MultEntry(c: array<int>, a: array<int>, b: array<int>, i: nat, j: nat)
      requires M > 0 && a.Length == b.Length == c.Length == M * M && c != a && c != b && i < M && j < M
      modifies c
      ensures 0 <= Cell(M, i, j) < M * M
      ensures c[..] == old(c[..])[Cell(M, i, j) := Dot(M, a[..], b[..], i, j, M) % TWO32]
    {
      ghost var x, y := a[..], b[..];
      CellFits(M, i, j);
      var p := Cell(M, i, j);
      c[p] := 0;
      for k := 0 to M
        invariant c[..] == old(c[..])[p := Dot(M, x, y, i, j, k) % TWO32]
      {
        CellFits(M, i, k);
        CellFits(M, k, j);
        SumOfWords(Dot(M, x, y, i, j, k), At(M, x, i, k) * At(M, y, k, j));
        c[p] := (c[p] + a[Cell(M, i, k)] * b[Cell(M, k, j)] % TWO32) % TWO32;
      }
    }

    /** c is the product of a and b over 32-bit words. */
    method Mult(c: array<int>, a: array<int>, b: array<int>)
      requires M > 0 && a.Length == b.Length == c.Length == M * M && c != a && c != b
      modifies c
      ensures c[..] == Reduced(Product(M, a[..], b[..]))
    {
      ghost var product, p := Reduced(Product(M, a[..], b[..])), 0;
      for i := 0 to M
        invariant p == M * i <= c.Length && c[..p] == product[..p]
      {
        for j := 0 to M
          invariant p == M * i + j <= c.Length && c[..p] == product[..p]
        {
          CellFits(M, i, j);
          MultEntry(c, a, b, i, j);
          p := p + 1;
        }
        NextRow(M, i);
      }
    }

    method Assign(a: array<int>, b: array<int>)
      requires a.Length == b.Length == M * M && a != b
      modifies a
      ensures a[..] == b[..]
    {
      ghost var p := 0;
      for i := 0 to M
        invariant p == M * i <= a.Length && a[..p] == b[..p]
      {
        for j := 0 to M
          invariant p == M * i + j <= a.Length && a[..p] == b[..p]
        {
          CellFits(M, i, j);
          a[Cell(M, i, j)] := b[Cell(M, i, j)];
          p := p + 1;
        }
        NextRow(M, i);
      }
    }

    /** A and T become the companion matrix, ans the identity. */
    method Fill()
      requires Valid()
      modifies A, T, ans
      ensures A[..] == T[..] == Companion(M) && ans[..] == Identity(M)
    {
      ghost var p := 0;
      for i := 0 to M
        invariant p == M * i <= A.Length
        invariant A[..p] == T[..p] == Companion(M)[..p] && ans[..p] == Identity(M)[..p]
      {
        for j := 0 to M
          invariant p == M * i + j <= A.Length
          invariant A[..p] == T[..p] == Companion(M)[..p] && ans[..p] == Identity(M)[..p]
        {
          CellFits(M, i, j);
          var x := if i == M - 1 || j == i + 1 then 1 else 0;
          A[Cell(M, i, j)] := x;
          T[Cell(M, i, j)] := x;
          ans[Cell(M, i, j)] := if i == j then 1 else 0;
          p := p + 1;
        }
        NextRow(M, i);
      }
    }

    /** One round of square and multiply, for the lowest bit of n. */
    method Round(n: nat, ghost a: seq<int>, ghost done: nat, ghost step: nat)
      requires Valid() && IsMatrix(M, a)
      requires ans[..] == Reduced(Power(M, a, done)) && T[..] == Reduced(Power(M, a, step))
      modifies ans, T, tmp
      ensures ans[..] == Reduced(Power(M, a, if n % 2 == 1 then done + step else done))
      ensures T[..] == Reduced(Power(M, a, step + step))
    {
      if n % 2 == 1 {
        Mult(tmp, ans, T);
        Assign(ans, tmp);
        Multiplied(M, a, done, step);
      }
      Mult(tmp, T, T);
      Assign(T, tmp);
      Multiplied(M, a, step, step);
    }

    /** Square and multiply: the power of the companion matrix, whose corner is the term of the recurrence. */
    method Run(exponent: nat)
      requires Valid()
      modifies A, ans, T, tmp
      ensures ans[..] == Reduced(Power(M, Companion(M), exponent))
      ensures At(M, ans[..], M - 1, M - 1) == Term(M, exponent + M - 1) % TWO32
    {
      Fill();
      Raise(exponent);
      LastColumn(M, exponent, M - 1);
      ReducedAt(M, Power(M, Companion(M), exponent), M - 1, M - 1);
    }

    /** The loop of square and multiply. */
    method Raise(exponent: nat)
      requires Valid() && T[..] == Companion(M) && ans[..] == Identity(M)
      modifies ans, T, tmp
      ensures ans[..] == Reduced(Power(M, Companion(M), exponent))
    {
      ghost var a, done, step := Companion(M), 0, 1;
      var n := exponent;
      Begun(M, a);
      while n > 0
        invariant exponent == done + step * n
        invariant ans[..] == Reduced(Power(M, a, done)) && T[..] == Reduced(Power(M, a, step))
        decreases n
      {
        Round(n, a, done, step);
        HalfStep(done, step, n);
        done := if n % 2 == 1 then done + step else done;
        step, n := step + step, n / 2;
      }
    }
  }

  lemma HalfStep(done: int, step: nat, n: nat)
    ensures done + step * n == (if n % 2 == 1 then done + step else done) + (step + step) * (n / 2)
  {
    var h := n / 2;
    MulSum(step, h, h);
    assert (step + step) * h == step * h + step * h;
    if n % 2 == 1 { MulSum(step, h + h, 1); }
  }

  lemma Begun(m: nat, a: seq<int>)
    requires IsMatrix(m, a) && a == Companion(m)
    ensures Identity(m) == Reduced(Power(m, a, 0)) && a == Reduced(Power(m, a, 1))
  {
    IdentityLaws(m, a);
    assert Power(m, a, 1) == a;
  }

  lemma Multiplied(m: nat, a: seq<int>, x: nat, y: nat)
    requires IsMatrix(m, a)
    ensures Reduced(Product(m, Reduced(Power(m, a, x)), Reduced(Power(m, a, y)))) == Reduced(Power(m, a, x + y))
  {
    ProductOfReduced(m, Power(m, a, x), Power(m, a, y));
    PowerAdd(m, a, x, y);
  }
}
