/** Powers of two and the bitwise idioms of the C sources, on natural numbers. */
module Bits {

  function Pow2(k: nat): (p: nat)
    ensures p > 0
  {
    if k == 0 then 1 else 2 * Pow2(k - 1)
  }

  ghost predicate IsPow2(n: int) {
    exists k: nat :: n == Pow2(k)
  }

  function Max(a: int, b: int): int { if a < b then b else a }

  function Min(a: int, b: int): int { if a < b then a else b }

  /** Bitwise conjunction `x & y`. */
  function And(x: nat, y: nat): nat {
    if x == 0 || y == 0 then 0
    else 2 * And(x / 2, y / 2) + (if x % 2 == 1 && y % 2 == 1 then 1 else 0)
  }

  /** Bitwise disjunction `x | y`. */
  function Or(x: nat, y: nat): nat
    decreases x + y
  {
    if x == 0 && y == 0 then 0
    else 2 * Or(x / 2, y / 2) + (if x % 2 == 1 || y % 2 == 1 then 1 else 0)
  }

  lemma {:induction false} Pow2Monotone(j: nat, k: nat)
    requires j <= k
    ensures Pow2(j) <= Pow2(k)
  {
    if j < k { Pow2Monotone(j, k - 1); }
  }

  lemma {:induction false} Pow2Add(j: nat, k: nat)
    ensures Pow2(j + k) == Pow2(j) * Pow2(k)
  {
    if j > 0 {
      Pow2Add(j - 1, k);
      MulTwice(Pow2(j - 1), Pow2(k));
    }
  }

  /** `fls`: one more than the index of the highest set bit. */
  function Fls(n: nat): nat {
    if n == 0 then 0 else 1 + Fls(n / 2)
  }

  lemma {:induction false} FlsBounds(n: nat)
    ensures n < Pow2(Fls(n))
    ensures n > 0 ==> Pow2(Fls(n) - 1) <= n
  {
    if n > 0 {
      FlsBounds(n / 2);
      assert n / 2 > 0 ==> Pow2(Fls(n / 2)) == 2 * Pow2(Fls(n / 2) - 1);
    }
  }

  lemma MulTwice(x: int, y: int)
    ensures (2 * x) * y == 2 * (x * y)
  {
  }

  lemma MulAtLeast(k: int, d: int)
    requires k >= 1 && d > 0
    ensures k * d >= d
  {
    assert k * d == d + (k - 1) * d;
  }

  /** Quotient and remainder are determined by the division identity. */
  lemma DivUnique(x: int, d: int, q: int, r: int)
    requires d > 0 && x == q * d + r && 0 <= r < d
    ensures x / d == q && x % d == r
  {
    var q', r' := x / d, x % d;
    assert (q - q') * d == r' - r by {
      assert x == d * q' + r';
      assert (q - q') * d == q * d - q' * d;
    }
    if q > q' { MulAtLeast(q - q', d); }
    if q < q' { MulAtLeast(q' - q, d); }
  }

  lemma HalveMod(x: nat, m: nat)
    requires m > 0
    ensures x % (2 * m) == 2 * ((x / 2) % m) + x % 2
  {
    var q, r := (x / 2) / m, (x / 2) % m;
    assert x == 2 * (q * m + r) + x % 2;
    assert x == q * (2 * m) + (2 * r + x % 2);
    DivUnique(x, 2 * m, q, 2 * r + x % 2);
  }

  /** `x & (2^k - 1)` is the remainder of `x` by `2^k`. */
  lemma {:induction false} AndMask(x: nat, k: nat)
    ensures And(x, Pow2(k) - 1) == x % Pow2(k)
  {
    if k > 0 {
      var m := Pow2(k - 1);
      AndMask(x / 2, k - 1);
      HalveMod(x, m);
      assert (2 * m - 1) / 2 == m - 1 && (2 * m - 1) % 2 == 1;
    }
  }

  lemma Pow2Halves(k: nat)
    ensures k == 0 ==> Pow2(k) == 1
    ensures k > 0 ==> Pow2(k) == 2 * Pow2(k - 1)
  {
  }

  lemma OrHalves(x: nat, y: nat)
    ensures Or(x, y) == if x == 0 && y == 0 then 0 else 2 * Or(x / 2, y / 2) + if x % 2 == 1 || y % 2 == 1 then 1 else 0
  {
  }

  lemma AndHalves(x: nat, y: nat)
    ensures And(x, y) == 2 * And(x / 2, y / 2) + if x % 2 == 1 && y % 2 == 1 then 1 else 0
  {
  }

  /** `x & ~(2^k - 1)` on `w`-bit words rounds `x` down to a multiple of `2^k`. */
  lemma {:induction false} AndNotMask(x: nat, k: nat, w: nat)
    requires k <= w && x < Pow2(w)
    ensures Pow2(k) <= Pow2(w) && And(x, Pow2(w) - Pow2(k)) == x - x % Pow2(k)
    decreases w
  {
    hide And, Pow2;
    Pow2Monotone(k, w);
    Pow2Halves(k);
    Pow2Halves(w);
    if w == 0 {
      AndHalves(0, 0);
      ModOne(x, Pow2(k));
    } else if k > 0 {
      AndNotMask(x / 2, k - 1, w - 1);
      HalveMod(x, Pow2(k - 1));
      AndTwice(x, Pow2(w - 1) - Pow2(k - 1), 0);
    } else {
      AndNotMask(x / 2, 0, w - 1);
      ModOne(x, Pow2(0));
      ModOne(x / 2, Pow2(0));
      AndTwice(x, Pow2(w - 1) - 1, 1);
    }
  }

  lemma ModOne(x: nat, m: nat)
    requires m == 1
    ensures x % m == 0
  {
  }

  /** Masking with `2 * z + b`. */
  lemma AndTwice(x: nat, z: nat, b: nat)
    requires b < 2
    ensures And(x, 2 * z + b) == 2 * And(x / 2, z) + x % 2 * b
  {
    hide And;
    AndHalves(x, 2 * z + b);
    assert (2 * z + b) / 2 == z && (2 * z + b) % 2 == b;
  }

  /** `(2^j - 1) | (2^k - 1)` is the wider of the two masks. */
  lemma {:induction false} OrMasks(j: nat, k: nat)
    ensures Or(Pow2(j) - 1, Pow2(k) - 1) == Max(Pow2(j), Pow2(k)) - 1
  {
    hide Or, Pow2;
    Pow2Halves(j);
    Pow2Halves(k);
    OrHalves(Pow2(j) - 1, Pow2(k) - 1);
    if j > 0 && k > 0 {
      OrMasks(j - 1, k - 1);
    } else if j > 0 {
      OrMasks(j - 1, k);
    } else if k > 0 {
      OrMasks(j, k - 1);
    }
  }

  lemma MultipleBelow(x: nat, m: nat, w: nat)
    requires m > 0 && w % m == 0 && x < w
    ensures (x - x % m) % m == 0 && x - x % m <= w - m
    ensures x - x % m == 0 <==> x < m
  {
    var q, t := x / m, w / m;
    assert x - x % m == q * m;
    DivUnique(q * m, m, q, 0);
    assert w == t * m;
    assert x == q * m + x % m;
    if q >= t { MulMonotone(t, q, m); }
    MulMonotone(q + 1, t, m);
    assert (q + 1) * m == q * m + m;
    if x < m { DivUnique(x, m, 0, x); } else { MulAtLeast(q, m); }
  }

  lemma MulMonotone(x: int, y: int, m: nat)
    requires x <= y
    ensures x * m <= y * m
  {
    assert y * m == x * m + (y - x) * m;
  }

  /** Multiples of `m` that are less than `m` apart are equal. */
  lemma ModSub(x: int, y: int, m: int)
    requires m > 0 && x % m == 0 && y % m == 0 && y <= x < y + m
    ensures x == y
  {
    var q, t := x / m, y / m;
    assert x == q * m && y == t * m;
    assert (t + 1) * m == t * m + m && (q + 1) * m == q * m + m;
    if q > t { MulMonotone(t + 1, q, m); }
    if q < t { MulMonotone(q + 1, t, m); }
  }

  lemma SumOfMultiples(x: int, y: int, m: int)
    requires m > 0 && x % m == 0 && y % m == 0
    ensures (x + y) % m == 0
  {
    assert x + y == (x / m + y / m) * m by { assert (x / m + y / m) * m == (x / m) * m + (y / m) * m; }
    DivUnique(x + y, m, x / m + y / m, 0);
  }

  /** The smaller of two powers of two divides the larger. */
  lemma Pow2Divides(j: nat, k: nat)
    requires j <= k
    ensures Pow2(k) % Pow2(j) == 0
  {
    Pow2Add(k - j, j);
    DivUnique(Pow2(k), Pow2(j), Pow2(k - j), 0);
  }

  /** Congruence modulo a multiple implies congruence modulo the divisor. */
  lemma ModOfMultiple(x: int, d: int, m: int)
    requires d > 0 && m > 0 && m % d == 0
    ensures (x % m) % d == x % d
    ensures x % m == 0 ==> x % d == 0
  {
    var q, r, t := x / m, x % m, m / d;
    assert m == t * d;
    var q', r' := r / d, r % d;
    assert q * m == (q * t) * d by { assert q * (t * d) == (q * t) * d; }
    assert x == q * m + r == (q * t + q') * d + r';
    DivUnique(x, d, q * t + q', r');
  }

  /** C division and remainder by a positive divisor: truncation towards zero. */
  function CDiv(a: int, b: int): int
    requires b > 0
  {
    if a >= 0 then a / b else -((-a) / b)
  }

  function CMod(a: int, b: int): int
    requires b > 0
  {
    a - b * CDiv(a, b)
  }
}
