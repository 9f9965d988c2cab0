/** 32-bit words, and facts about products, quotients and remainders by a divisor that is not a
    constant. */
module Arith {

  const TWO32: nat := 0x1_0000_0000

  lemma MulMono(a: int, b: int, c: nat)
    requires a <= b
    ensures a * c <= b * c
  {
  }

  /** The quotient is the multiple that `n` has reached but not passed. */
  lemma DivUnique(n: nat, c: nat, q: nat)
    requires 0 < c && q * c <= n < (q + 1) * c
    ensures n / c == q && n % c == n - q * c
  {
    var d := n / c;
    assert n == d * c + n % c;
    if d < q {
      MulMono(d + 1, q, c);
    } else if d > q {
      MulMono(q + 1, d, c);
    }
  }

  lemma DivBounds(n: nat, c: nat)
    requires 0 < c
    ensures n == (n / c) * c + n % c && n % c < c && 0 <= (n / c) * c <= n
  {
    MulMono(0, n / c, c);
  }

  lemma DivMono(a: nat, b: nat, c: nat)
    requires 0 < c && a <= b
    ensures a / c <= b / c
  {
    DivBounds(a, c);
    DivBounds(b, c);
    if a / c > b / c {
      MulMono(b / c + 1, a / c, c);
    }
  }

  lemma MulMod(q: nat, c: nat)
    requires 0 < c
    ensures (q * c) % c == 0
  {
    MulMono(q, q + 1, c);
    DivUnique(q * c, c, q);
  }

  /** Adding the divisor keeps the remainder. */
  lemma ModStep(n: nat, c: nat)
    requires 0 < c
    ensures (n + c) % c == n % c && (n + c) / c == n / c + 1
  {
    DivBounds(n, c);
    assert (n / c + 1) * c == (n / c) * c + c;
    assert (n / c + 2) * c == (n / c) * c + c + c;
    DivUnique(n + c, c, n / c + 1);
  }

  lemma NextMod(n: nat, c: nat)
    requires 0 < c
    ensures (n + 1) % c == if n % c == c - 1 then 0 else n % c + 1
  {
    var q, r := n / c, n % c;
    DivBounds(n, c);
    assert (q + 1) * c == q * c + c;
    assert (q + 2) * c == q * c + c + c;
    if r == c - 1 {
      DivUnique(n + 1, c, q + 1);
    } else {
      DivUnique(n + 1, c, q);
    }
  }

  lemma HalfMod(n: nat, h: nat)
    requires 0 < h
    ensures n % (2 * h) == 2 * (n / 2 % h) + n % 2
  {
    var m := n / 2;
    var q := m / h;
    DivBounds(m, h);
    assert q * (2 * h) == 2 * (q * h) && (q + 1) * (2 * h) == 2 * (q * h) + 2 * h;
    DivUnique(n, 2 * h, q);
  }

  /** The multiple of `c` that `n` has reached. */
  function Floor(n: nat, c: nat): (f: nat)
    requires 0 < c
    ensures f <= n < f + c
  {
    DivBounds(n, c);
    n - n % c
  }

  lemma FloorOne(n: nat)
    ensures Floor(n, 1) == n
  {
  }

  lemma FloorHalf(n: nat, h: nat)
    requires 0 < h
    ensures Floor(n, 2 * h) == 2 * Floor(n / 2, h)
  {
    HalfMod(n, h);
  }

  lemma FloorIsMultiple(n: nat, c: nat)
    requires 0 < c
    ensures Floor(n, c) % c == 0
  {
    DivBounds(n, c);
    MulMod(n / c, c);
  }

  lemma FloorZero(n: nat, c: nat)
    requires 0 < c
    ensures Floor(n, c) == 0 <==> n < c
  {
    if n < c {
      DivUnique(n, c, 0);
    }
  }

  lemma FloorSum(a: nat, n: nat, c: nat)
    requires 0 < c && n % c == 0
    ensures Floor(a + n, c) == Floor(a, c) + n
  {
    var q, m := a / c, n / c;
    DivBounds(a, c);
    DivBounds(n, c);
    assert (q + m) * c == q * c + m * c && (q + m + 1) * c == q * c + m * c + c;
    DivUnique(a + n, c, q + m);
  }

  /** Adding one more than the divisor goes to the next multiple, or the one after it. */
  lemma FloorNext(n: nat, c: nat)
    requires 0 < c
    ensures n % c < c
    ensures Floor(n + c + 1, c) == if n % c == c - 1 then n + c + 1 else n - n % c + c
  {
    DivBounds(n, c);
    ModStep(n + 1, c);
    NextMod(n, c);
    assert n + c + 1 == n + 1 + c;
  }

  function Pow2(n: nat): (p: nat)
    ensures 0 < p
  {
    if n == 0 then 1 else 2 * Pow2(n - 1)
  }

  /** Binary digit `j` of `n`. */
  predicate HasBit(n: nat, j: nat) {
    n / Pow2(j) % 2 == 1
  }

  /** The digits of a number are its last one and those of its half. */
  lemma HasBitHalf(n: nat, j: nat)
    ensures HasBit(n, 0) <==> n % 2 == 1
    ensures HasBit(n, j + 1) <==> HasBit(n / 2, j)
  {
    HalfDiv(n, Pow2(j));
  }

  lemma HalfDiv(n: nat, h: nat)
    requires 0 < h
    ensures n / (2 * h) == n / 2 / h
  {
    var q := n / 2 / h;
    DivBounds(n / 2, h);
    assert q * (2 * h) == 2 * (q * h) && (q + 1) * (2 * h) == 2 * (q * h) + 2 * h;
    DivUnique(n, 2 * h, q);
  }

  lemma QuotientPositive(n: nat, c: nat)
    requires 0 < c <= n
    ensures 0 < n / c
  {
    DivUnique(c, c, 1);
    DivMono(c, n, c);
  }

  lemma QuotientLess(n: nat, c: nat)
    requires 2 <= c <= n
    ensures 0 < n / c < n && n % c < c && n == (n / c) * c + n % c
  {
    QuotientPositive(n, c);
    DivBounds(n, c);
    MulMono(2, c, n / c);
  }

  lemma MulAdd(a: int, b: int, c: int)
    ensures (a + b) * c == a * c + b * c
    ensures (a - b) * c == a * c - b * c
  {
  }

  lemma OneMore(n: nat, c: nat)
    ensures (n + 1) * c == n * c + c
  {
  }

  lemma MultipleOver(c: nat, d: nat)
    requires 0 < d
    ensures c * d / d == c
  {
    assert (c + 1) * d == c * d + d;
    DivUnique(c * d, d, c);
  }
}
