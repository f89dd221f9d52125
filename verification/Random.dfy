/** The pseudo-random number generator: a product modulo a 31-bit number, computed in 32 bits. */
module Random {
  import opened Bits

  const A := 40014
  const M := 2147483563
  const Q := 53668
  const R := 12211
  /** The inverse of `A` modulo `M`. */
  const A_INVERSE := 2082061899

  predicate Int32(x: int) { -0x8000_0000 <= x < 0x8000_0000 }

  /** One step, as the division and the two products are written. */
  function Step(seed: int): int {
    var q := CDiv(seed, Q);
    var next := A * (seed - Q * q) - R * q;
    if next < 0 then next + M else next
  }

  lemma QuotientBounds(seed: int)
    requires Int32(seed)
    ensures var q := CDiv(seed, Q);
            var rem := seed - Q * q;
            if seed >= 0 then 0 <= q <= A && 0 <= rem < Q else -A <= q <= 0 && -Q < rem <= 0
  {
  }

  /** For every 32-bit seed, no intermediate value overflows and the result is the product
      reduced modulo `M`. */
  lemma StepIsProduct(seed: int)
    requires Int32(seed)
    ensures var q := CDiv(seed, Q);
            && Int32(Q * q) && Int32(seed - Q * q) && Int32(A * (seed - Q * q)) && Int32(R * q)
            && Int32(A * (seed - Q * q) - R * q)
    ensures Int32(Step(seed)) && Step(seed) == A * seed % M
  {
    var q := CDiv(seed, Q);
    var next := A * (seed - Q * q) - R * q;
    QuotientBounds(seed);
    assert A * seed == M * q + next;
    if next < 0 {
      DivUnique(A * seed, M, q - 1, next + M);
    } else {
      DivUnique(A * seed, M, q, next);
    }
  }

  /** Multiplying by the inverse recovers the seed. */
  lemma StepInverse(seed: int)
    requires 0 <= seed < M
    ensures A_INVERSE * (A * seed % M) % M == seed
  {
    var p := A * seed;
    var k := p / M;
    assert A_INVERSE * A == M * 38795 + 1;
    assert A_INVERSE * (p % M) == A_INVERSE * p - A_INVERSE * k * M;
    assert A_INVERSE * p == M * 38795 * seed + seed;
    DivUnique(A_INVERSE * (p % M), M, 38795 * seed - A_INVERSE * k, seed);
  }

  /** Seeds between 1 and `M - 1` stay there, and no two lead to the same one. */
  lemma StepPermutes(s: int, t: int)
    requires 0 < s < M && 0 < t < M
    ensures 0 < Step(s) < M
    ensures Step(s) == Step(t) ==> s == t
  {
    StepIsProduct(s);
    StepIsProduct(t);
    StepInverse(s);
    StepInverse(t);
  }

  /** Exactly the multiples of `M` lead to 0, after which the clock is consulted again. */
  lemma StepZeroIff(seed: int)
    requires Int32(seed)
    ensures Step(seed) == 0 <==> seed == 0 || seed == M || seed == -M
  {
    StepIsProduct(seed);
    var s := seed % M;
    StepInverse(s);
    var k := seed / M;
    assert A * seed == A * s + M * (A * k);
    var p := A * s;
    assert A * seed == M * (p / M + A * k) + p % M;
    DivUnique(A * seed, M, p / M + A * k, p % M);
    if Step(seed) == 0 { assert s == 0; }
  }

  class Generator {
    var seed: int

    method Seed(value: int)
      requires Int32(value)
      modifies this
      ensures seed == value
    {
      seed := value;
    }

    /** The next number; `ticks` is the clock, consulted only when the seed is 0. */
    method Next(ticks: int) returns (r: int)
      requires Int32(seed) && Int32(ticks)
      modifies this
      ensures var s := if old(seed) == 0 then ticks else old(seed);
              r == seed == A * s % M
      ensures Int32(seed)
      ensures 0 < old(seed) < M ==> 0 < r < M
    {
      if seed == 0 { Seed(ticks); }
      StepIsProduct(seed);
      if 0 < seed < M { StepPermutes(seed, seed); }
      var q := CDiv(seed, Q);
      seed := A * (seed - Q * q) - R * q;
      if seed < 0 { seed := seed + M; }
      r := seed;
    }

    /** A generator seeded within range stays there, whatever the clock says. */
    method Run(ticks: seq<int>) returns (out: seq<int>)
      requires 0 < seed < M && forall i :: 0 <= i < |ticks| ==> Int32(ticks[i])
      modifies this
      ensures 0 < seed < M && out == Sequence(old(seed), |ticks|)
      ensures forall i :: 0 <= i < |out| ==> 0 < out[i] < M
    {
      out := [];
      for i := 0 to |ticks|
        invariant 0 < seed < M && |out| == i && out == Sequence(old(seed), i)
        invariant seed == if i == 0 then old(seed) else out[i - 1]
        invariant forall k :: 0 <= k < i ==> 0 < out[k] < M
      {
        var r := Next(ticks[i]);
        out := out + [r];
      }
    }
  }

  /** The first `n` numbers that follow a seed. */
  ghost function Sequence(seed: int, n: nat): (s: seq<int>)
    ensures |s| == n
  {
    if n == 0 then [] else
      var s := Sequence(seed, n - 1);
      s + [A * (if n == 1 then seed else s[n - 2]) % M]
  }
}
