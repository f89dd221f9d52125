/** Modular arithmetic on big integers. A big integer of `size` elements is a natural number
    below `2^(32 * size)`; the element-wise primitives are modelled by their value. */
module BigInt {
  import opened Bits

  const ELEMENT_BITS: nat := 32

  /** One more than the largest value of a big integer of `size` elements. */
  function Range(size: nat): (w: nat)
    ensures w > 0
  {
    Pow2(ELEMENT_BITS * size)
  }

  function Pow(b: nat, e: nat): nat {
    if e == 0 then 1 else b * Pow(b, e - 1)
  }

  lemma ModPlusMultiple(y: int, q: int, m: int)
    requires m > 0
    ensures (y + q * m) % m == y % m
  {
    assert y + q * m == (y / m + q) * m + y % m by { assert (y / m + q) * m == (y / m) * m + q * m; }
    DivUnique(y + q * m, m, y / m + q, y % m);
  }

  lemma ModDifference(x: int, y: int, m: int) returns (q: int)
    requires m > 0 && x % m == y % m
    ensures x == y + q * m
  {
    q := x / m - y / m;
    assert q * m == (x / m) * m - (y / m) * m;
  }

  /** Either factor of a product may be replaced by a congruent one. */
  lemma MulCongruent(x: int, y: int, x': int, y': int, m: int)
    requires m > 0 && x % m == x' % m && y % m == y' % m
    ensures (x * y) % m == (x' * y') % m
  {
    var q := ModDifference(x, x', m);
    var t := ModDifference(y, y', m);
    MulExpand(x', y', q, t, m);
    ModPlusMultiple(x' * y', x' * t + q * y' + q * t * m, m);
  }

  lemma MulExpand(x: int, y: int, q: int, t: int, m: int)
    ensures (x + q * m) * (y + t * m) == x * y + (x * t + q * y + q * t * m) * m
  {
    calc {
      (x + q * m) * (y + t * m);
      x * y + x * (t * m) + (q * m) * y + (q * m) * (t * m);
      { assert x * (t * m) == (x * t) * m; assert (q * m) * y == (q * y) * m; assert (q * m) * (t * m) == (q * t * m) * m; }
      x * y + (x * t) * m + (q * y) * m + (q * t * m) * m;
      x * y + (x * t + q * y + q * t * m) * m;
    }
  }

  lemma {:induction false} PowCongruent(x: nat, y: nat, e: nat, m: nat)
    requires m > 0 && x % m == y % m
    ensures Pow(x, e) % m == Pow(y, e) % m
  {
    if e > 0 {
      PowCongruent(x, y, e - 1, m);
      MulCongruent(x, Pow(x, e - 1), y, Pow(y, e - 1), m);
    }
  }

  lemma {:induction false} PowAdd(b: nat, x: nat, y: nat)
    ensures Pow(b, x + y) == Pow(b, x) * Pow(b, y)
  {
    if x > 0 {
      PowAdd(b, x - 1, y);
      MulAssoc(b, Pow(b, x - 1), Pow(b, y));
    }
  }

  lemma {:induction false} PowMul(b: nat, x: nat, y: nat)
    ensures Pow(Pow(b, x), y) == Pow(b, x * y)
  {
    if y > 0 {
      PowMul(b, x, y - 1);
      PowAdd(b, x, x * (y - 1));
      assert x * y == x + x * (y - 1);
    } else {
      assert x * y == 0;
    }
  }

  lemma MulAssoc(x: int, y: int, z: int)
    ensures x * (y * z) == (x * y) * z
  {
  }

  lemma {:induction false} PowSquare(b: nat, e: nat)
    ensures Pow(b * b, e) == Pow(b, 2 * e)
  {
    if e > 0 {
      PowSquare(b, e - 1);
      assert Pow(b, 2 * e) == b * (b * Pow(b, 2 * e - 2));
      MulAssoc(b, b, Pow(b, 2 * e - 2));
    }
  }

  /** The product of two `size`-element integers fits `2 * size` elements. */
  lemma ProductRange(a: nat, b: nat, size: nat)
    requires a < Range(size) && b < Range(size)
    ensures a * b < Range(2 * size)
  {
    Pow2Add(ELEMENT_BITS * size, ELEMENT_BITS * size);
    assert ELEMENT_BITS * (2 * size) == ELEMENT_BITS * size + ELEMENT_BITS * size;
    MulBelow(a, b, Range(size));
  }

  lemma MulBelow(a: nat, b: nat, w: nat)
    requires a < w && b < w
    ensures a * b < w * w
  {
    assert a * b <= a * w by { MulMonotone(b, w, a); }
    assert a * w < w * w by { MulMonotone(a + 1, w, w); assert (a + 1) * w == a * w + w; }
  }

  lemma ShiftStep(n: nat, k: nat)
    ensures n * Pow2(k + 1) == 2 * (n * Pow2(k))
  {
    assert n * (2 * Pow2(k)) == 2 * (n * Pow2(k));
  }

  lemma {:induction false} FlsOfShift(n: nat, k: nat)
    requires n > 0
    ensures n * Pow2(k) > 0 && Fls(n * Pow2(k)) == Fls(n) + k
  {
    if k > 0 {
      FlsOfShift(n, k - 1);
      ShiftStep(n, k - 1);
    }
  }

  lemma FlsBound(n: nat, k: nat)
    requires n < Pow2(k)
    ensures Fls(n) <= k
  {
    FlsBounds(n);
    var g: nat := if n == 0 then 0 else Fls(n) - 1;
    if g >= k { Pow2Monotone(k, g); }
  }

  /** The scaled modulus never loses a bit while it has no more bits than the product. */
  lemma NoBitLost(product: nat, modulus: nat, i: nat, size: nat)
    requires product < Range(size) && i < Fls(product) - Fls(modulus)
    ensures (2 * (modulus * Pow2(i))) % Range(size) == modulus * Pow2(i + 1) < Range(size)
  {
    ShiftStep(modulus, i);
    ScaledBelow(product, modulus, i, size);
    DivUnique(modulus * Pow2(i + 1), Range(size), 0, modulus * Pow2(i + 1));
  }

  lemma ScaledBelow(product: nat, modulus: nat, i: nat, size: nat)
    requires product < Range(size) && i < Fls(product) - Fls(modulus)
    ensures modulus * Pow2(i + 1) < Range(size)
  {
    if modulus > 0 {
      FlsOfShift(modulus, i + 1);
      FlsBound(product, ELEMENT_BITS * size);
      FlsBounds(modulus * Pow2(i + 1));
      Pow2Monotone(Fls(modulus * Pow2(i + 1)), ELEMENT_BITS * size);
    } else {
      assert modulus * Pow2(i + 1) == 0;
    }
  }

  lemma ScaledModulus(product: nat, modulus: nat, rotation: int)
    requires rotation == Fls(product) - Fls(modulus) && modulus > 0
    ensures rotation >= 0 ==> product < 2 * (modulus * Pow2(rotation))
    ensures rotation < 0 ==> product < modulus
  {
    FlsBounds(product);
    FlsBounds(modulus);
    if rotation >= 0 {
      FlsOfShift(modulus, rotation);
      FlsBounds(modulus * Pow2(rotation));
    } else {
      Pow2Monotone(Fls(product), Fls(modulus) - 1);
    }
  }

  /** The first loop of `bigint_mod_multiply_raw`: scale the modulus up to the product. */
  method ScaleUp(product: nat, modulus: nat, rotation: int, size: nat) returns (scaled: nat)
    requires product < Range(size) && modulus < Range(size) && rotation == Fls(product) - Fls(modulus)
    ensures scaled == modulus * Pow2(Max(rotation, 0))
  {
    scaled := modulus;
    assert modulus * Pow2(0) == modulus;
    var i := 0;
    while i < rotation
      invariant 0 <= i <= Max(rotation, 0)
      invariant scaled == modulus * Pow2(i) < Range(size)
    {
      NoBitLost(product, modulus, i, size);
      scaled := (2 * scaled) % Range(size);
      i := i + 1;
    }
  }

  /** The second loop: subtract the scaled modulus wherever it fits, halving it each time. The
      running remainder stays below twice the scaled modulus. */
  method SubtractDown(product: nat, modulus: nat, scaledUp: nat, rotation: int) returns (remainder: nat)
    requires rotation == Fls(product) - Fls(modulus) && scaledUp == modulus * Pow2(Max(rotation, 0))
    ensures remainder == if modulus == 0 then product else product % modulus
  {
    remainder := product;
    var scaled := scaledUp;
    ghost var q := 0;
    if modulus > 0 { ScaledModulus(product, modulus, rotation); }
    var i := 0;
    while i <= rotation
      invariant 0 <= i <= Max(rotation + 1, 0)
      invariant product == remainder + q * modulus
      invariant i <= rotation ==> scaled == modulus * Pow2(rotation - i)
      invariant modulus > 0 && i <= rotation ==> remainder < 2 * scaled
      invariant modulus > 0 && i > rotation ==> remainder < modulus
      invariant modulus == 0 ==> remainder == product
    {
      SubtractStep(modulus, rotation - i, remainder, q);
      if remainder >= scaled {
        remainder := remainder - scaled;
        q := q + Pow2(rotation - i);
      }
      scaled := scaled / 2;
      i := i + 1;
    }
    if modulus > 0 { DivUnique(product, modulus, q, remainder); }
  }

  /** `bigint_mod_multiply_raw` */
  method ModMultiply(multiplicand: nat, multiplier: nat, modulus: nat, size: nat) returns (result: nat)
    requires multiplicand < Range(size) && multiplier < Range(size) && modulus < Range(size)
    ensures result < Range(size)
    ensures modulus > 0 ==> result == (multiplicand * multiplier) % modulus < modulus
    ensures modulus == 0 ==> result == (multiplicand * multiplier) % Range(size)
  {
    var product := multiplicand * multiplier;
    ProductRange(multiplicand, multiplier, size);
    RangeMonotone(size);
    var rotation := Fls(product) - Fls(modulus);
    var scaled := ScaleUp(product, modulus, rotation, 2 * size);
    var remainder := SubtractDown(product, modulus, scaled, rotation);
    result := remainder % Range(size);
    if modulus > 0 { DivUnique(remainder, Range(size), 0, remainder); }
  }

  /** `bigint_mod_exp_raw`: square and multiply. */
  method ModExp(base: nat, modulus: nat, exponent: nat, size: nat) returns (result: nat)
    requires size > 0 && base < Range(size) && modulus < Range(size)
    ensures result < Range(size)
    ensures modulus > 0 ==> result % modulus == Pow(base, exponent) % modulus
    ensures modulus > 0 && (exponent > 0 || modulus > 1) ==> result < modulus
    ensures exponent == 0 ==> result == 1
  {
    hide Pow, Range;
    var tempBase: nat, tempExponent: nat := base, exponent;
    OneInRange(size);
    PowNone(base);
    result := 1;
    while tempExponent != 0
      invariant tempBase < Range(size) && result < Range(size)
      invariant modulus > 0 ==> (result * Pow(tempBase, tempExponent)) % modulus == Pow(base, exponent) % modulus
      invariant modulus > 0 && tempExponent == 0 && (exponent > 0 || modulus > 1) ==> result < modulus
      invariant exponent == 0 ==> tempExponent == 0 && result == 1
    {
      ghost var r, b, e := result, tempBase, tempExponent;
      if tempExponent % 2 == 1 {
        result := ModMultiply(result, tempBase, modulus, size);
      }
      tempExponent := tempExponent / 2;
      tempBase := ModMultiply(tempBase, tempBase, modulus, size);
      if modulus > 0 { SquareStep(r, b, e, modulus); }
    }
    PowNone(tempBase);
  }

  lemma PowNone(b: nat)
    ensures Pow(b, 0) == 1
  {
  }

  lemma OneInRange(size: nat)
    requires size > 0
    ensures 1 < Range(size)
  {
    Pow2Monotone(1, ELEMENT_BITS * size);
  }

  /** One round of square-and-multiply keeps `r * b^e`, modulo `m`. */
  lemma SquareStep(r: nat, b: nat, e: nat, m: nat)
    requires m > 0 && e > 0
    ensures var r' := if e % 2 == 1 then (r * b) % m else r;
            (r' * Pow((b * b) % m, e / 2)) % m == (r * Pow(b, e)) % m
  {
    var r' := if e % 2 == 1 then (r * b) % m else r;
    var s := if e % 2 == 1 then r * b else r;
    ModIdempotent(r * b, m);
    ModIdempotent(b * b, m);
    PowCongruent((b * b) % m, b * b, e / 2, m);
    MulCongruent(r', Pow((b * b) % m, e / 2), s, Pow(b * b, e / 2), m);
    PowSquare(b, e / 2);
    if e % 2 == 1 {
      assert Pow(b, e) == b * Pow(b, 2 * (e / 2));
      MulAssoc(r, b, Pow(b, 2 * (e / 2)));
    }
  }

  lemma ModIdempotent(x: nat, m: nat)
    requires m > 0
    ensures (x % m) % m == x % m
  {
    DivUnique(x % m, m, 0, x % m);
  }

  lemma SubtractStep(modulus: nat, k: nat, r: nat, q: int)
    ensures r + q * modulus == (r - modulus * Pow2(k)) + (q + Pow2(k)) * modulus
    ensures k > 0 ==> (modulus * Pow2(k)) / 2 == modulus * Pow2(k - 1) && modulus * Pow2(k) == 2 * (modulus * Pow2(k - 1))
    ensures k == 0 ==> modulus * Pow2(k) == modulus
  {
    assert (q + Pow2(k)) * modulus == q * modulus + modulus * Pow2(k);
    if k > 0 { ShiftStep(modulus, k - 1); }
  }

  lemma RangeMonotone(size: nat)
    ensures Range(size) <= Range(2 * size)
  {
    Pow2Monotone(ELEMENT_BITS * size, ELEMENT_BITS * (2 * size));
  }
}
