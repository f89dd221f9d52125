/** Bytes and their big-endian reading as numbers. */
module Bytes {
  import opened Bits

  type byte = x: int | 0 <= x < 256

  function Pow256(k: nat): (p: nat)
    ensures p > 0
  {
    if k == 0 then 1 else 256 * Pow256(k - 1)
  }

  /** The number a byte string spells, most significant byte first. */
  function FromBE(s: seq<byte>): nat {
    if s == [] then 0 else FromBE(s[..|s| - 1]) * 256 + s[|s| - 1]
  }

  /** The low `len` bytes of `n`, most significant first. */
  function ToBE(n: nat, len: nat): (s: seq<byte>)
    ensures |s| == len
  {
    if len == 0 then [] else ToBE(n / 256, len - 1) + [n % 256]
  }

  lemma {:induction false} Pow256Monotone(a: nat, b: nat)
    requires a <= b
    ensures Pow256(a) <= Pow256(b)
    decreases b
  {
    if a < b { Pow256Monotone(a, b - 1); }
  }

  lemma {:induction false} FromBEBound(s: seq<byte>)
    ensures FromBE(s) < Pow256(|s|)
  {
    if s != [] { FromBEBound(s[..|s| - 1]); }
  }

  lemma {:induction false} ToBEFromBE(s: seq<byte>)
    ensures ToBE(FromBE(s), |s|) == s
  {
    if s != [] {
      var t, b := s[..|s| - 1], s[|s| - 1];
      ToBEFromBE(t);
      assert FromBE(s) / 256 == FromBE(t) && FromBE(s) % 256 == b;
      assert s == t + [b];
    }
  }

  lemma {:induction false} FromBEToBE(n: nat, len: nat)
    requires n < Pow256(len)
    ensures FromBE(ToBE(n, len)) == n
  {
    if len > 0 {
      FromBEToBE(n / 256, len - 1);
      assert ToBE(n, len)[..len - 1] == ToBE(n / 256, len - 1);
    }
  }

  /** A leading zero byte does not change the number. */
  lemma {:induction false} FromBELeadingZero(s: seq<byte>)
    ensures FromBE([0] + s) == FromBE(s)
  {
    if s != [] {
      FromBELeadingZero(s[..|s| - 1]);
      assert ([0] + s)[..|s|] == [0] + s[..|s| - 1];
    }
  }

  lemma {:induction false} ToBEAt(n: nat, len: nat, i: nat)
    requires i < len
    ensures ToBE(n, len)[len - 1 - i] == (n / Pow256(i)) % 256
    decreases i
  {
    if i > 0 {
      ToBEAt(n / 256, len - 1, i - 1);
      DivDiv(n, Pow256(i - 1));
    } else {
      assert n / 1 == n;
    }
  }

  lemma DivDiv(n: nat, m: nat)
    requires m > 0
    ensures (n / 256) / m == n / (256 * m)
  {
    var q, r := (n / 256) / m, (n / 256) % m;
    assert n == (q * m + r) * 256 + n % 256;
    assert n == q * (256 * m) + (r * 256 + n % 256);
    DivUnique(n, 256 * m, q, r * 256 + n % 256);
  }

  function Repeat(b: byte, n: nat): (s: seq<byte>)
    ensures |s| == n && forall i :: 0 <= i < n ==> s[i] == b
  {
    seq(n, _ => b)
  }

  /** Exclusive or of the low `k` bits. */
  function XorBits(a: nat, b: nat, k: nat): (x: nat)
    ensures x < Pow2(k)
  {
    if k == 0 then 0 else (a + b) % 2 + 2 * XorBits(a / 2, b / 2, k - 1)
  }

  function Xor(a: byte, b: byte): byte {
    assert Pow2(8) == 256;
    XorBits(a, b, 8)
  }

  lemma XorParity(a: nat, b: nat, h: nat)
    ensures var x := (a + b) % 2 + 2 * h; x / 2 == h && (x + b) % 2 == a % 2
  {
  }

  lemma {:induction false} XorBitsTwice(a: nat, b: nat, k: nat)
    requires a < Pow2(k)
    ensures XorBits(XorBits(a, b, k), b, k) == a
  {
    if k > 0 {
      XorBitsTwice(a / 2, b / 2, k - 1);
      XorParity(a, b, XorBits(a / 2, b / 2, k - 1));
    }
  }

  lemma {:induction false} XorBitsZero(a: nat, b: nat, k: nat)
    requires a < Pow2(k) && b < Pow2(k)
    ensures XorBits(a, b, k) == a <==> b == 0
  {
    if k > 0 { XorBitsZero(a / 2, b / 2, k - 1); }
  }

  lemma XorTwice(a: byte, b: byte)
    ensures Xor(Xor(a, b), b) == a
  {
    assert Pow2(8) == 256;
    XorBitsTwice(a, b, 8);
  }

  lemma XorZero(a: byte, b: byte)
    ensures Xor(a, b) == a <==> b == 0
  {
    assert Pow2(8) == 256;
    XorBitsZero(a, b, 8);
  }
}
