/** RSA encryption and signatures with PKCS#1 v1.5 padding (RFC 3447). */
module Rsa {
  import opened Platform
  import opened Wrappers
  import opened Bits
  import opened Bytes
  import opened Memory
  import opened BigInt

  const EACCES_VERIFY := Distinct(EACCES, 1)

  /** Little-endian reading: how a big integer lies in memory. */
  function FromLE(s: seq<byte>): nat {
    if s == [] then 0 else s[0] + 256 * FromLE(s[1..])
  }

  function Reverse(s: seq<byte>): (r: seq<byte>)
    ensures |r| == |s| && forall i :: 0 <= i < |s| ==> r[i] == s[|s| - 1 - i]
  {
    seq(|s|, i requires 0 <= i < |s| => s[|s| - 1 - i])
  }

  lemma {:induction false} FromLEReverse(s: seq<byte>)
    ensures FromLE(Reverse(s)) == FromBE(s)
  {
    if s != [] {
      FromLEReverse(s[..|s| - 1]);
      assert Reverse(s)[1..] == Reverse(s[..|s| - 1]);
    }
  }

  lemma {:induction false} FromLEZeros(n: nat)
    ensures FromLE(Repeat(0, n)) == 0
  {
    if n > 0 {
      FromLEZeros(n - 1);
      assert Repeat(0, n)[1..] == Repeat(0, n - 1);
    }
  }

  lemma {:induction false} FromLEPadded(s: seq<byte>, n: nat)
    ensures FromLE(s + Repeat(0, n)) == FromLE(s)
  {
    if s == [] {
      FromLEZeros(n);
      assert s + Repeat(0, n) == Repeat(0, n);
    } else {
      FromLEPadded(s[1..], n);
      assert (s + Repeat(0, n))[1..] == s[1..] + Repeat(0, n);
    }
  }

  /** The low `len` bytes in memory, read backwards, are the big-endian rendering. */
  lemma {:induction false} ReverseLow(s: seq<byte>, len: nat)
    requires len <= |s|
    ensures Reverse(s[..len]) == ToBE(FromLE(s), len)
  {
    if len > 0 {
      ReverseLow(s[1..], len - 1);
      assert FromLE(s) / 256 == FromLE(s[1..]) && FromLE(s) % 256 == s[0];
      assert Reverse(s[..len]) == Reverse(s[1..][..len - 1]) + [s[0]];
    }
  }

  /** `bigint_init` */
  method BigintInit(value: array<byte>, data: array<byte>, len: nat)
    requires value != data && len <= value.Length && len <= data.Length
    modifies value
    ensures FromLE(value[..]) == FromBE(data[..len])
    ensures forall k :: len <= k < value.Length ==> value[k] == 0
  {
    var i := 0;
    while i < len
      invariant i <= len && forall k :: 0 <= k < i ==> value[k] == data[len - 1 - k]
    {
      value[i] := data[len - 1 - i];
      i := i + 1;
    }
    while i < value.Length
      invariant len <= i <= value.Length
      invariant forall k :: 0 <= k < len ==> value[k] == data[len - 1 - k]
      invariant forall k :: len <= k < i ==> value[k] == 0
    {
      value[i] := 0;
      i := i + 1;
    }
    var d := data[..len];
    assert value[..] == Reverse(d) + Repeat(0, value.Length - len);
    FromLEPadded(Reverse(d), value.Length - len);
    FromLEReverse(d);
  }

  /** Write a big integer of the buffer's full size. */
  method BigintStore(value: array<byte>, n: nat)
    requires n < Pow256(value.Length)
    modifies value
    ensures FromLE(value[..]) == n
  {
    var m := n;
    var i := 0;
    ghost var be := ToBE(n, value.Length);
    while i < value.Length
      invariant i <= value.Length && m == n / Pow256(i)
      invariant forall k :: 0 <= k < i ==> value[k] == be[value.Length - 1 - k]
    {
      ToBEAt(n, value.Length, i);
      DivDivBack(n, i);
      value[i] := m % 256;
      m := m / 256;
      i := i + 1;
    }
    assert value[..] == Reverse(be);
    FromLEReverse(be);
    FromBEToBE(n, value.Length);
  }

  lemma DivDivBack(n: nat, i: nat)
    ensures (n / Pow256(i)) / 256 == n / Pow256(i + 1)
  {
    var m := Pow256(i);
    var q, r := (n / m) / 256, (n / m) % 256;
    assert n == (q * 256 + r) * m + n % m;
    assert (q * 256 + r) * m == q * (256 * m) + r * m;
    assert r * m + n % m < 256 * m by { MulMonotone(r, 255, m); }
    DivUnique(n, 256 * m, q, r * m + n % m);
  }

  /** `bigint_done` */
  method BigintDone(value: array<byte>, out: array<byte>, len: nat)
    requires value != out && len <= value.Length && len <= out.Length
    modifies out
    ensures out[..len] == ToBE(FromLE(value[..]), len)
    ensures out[len..] == old(out[len..])
  {
    var i := 0;
    while i < len
      invariant i <= len && forall k :: 0 <= k < i ==> out[k] == value[len - 1 - k]
      invariant out[len..] == old(out[len..])
    {
      out[i] := value[len - 1 - i];
      i := i + 1;
    }
    assert out[..len] == Reverse(value[..][..len]);
    ReverseLow(value[..], len);
  }

  lemma {:induction false} RangeIsBytes(size: nat)
    ensures Range(size) == Pow256(4 * size)
  {
    if size > 0 {
      RangeIsBytes(size - 1);
      var e := ELEMENT_BITS * (size - 1);
      assert ELEMENT_BITS * size == 32 + e;
      Pow2Add(32, e);
      assert Pow2(32) == 0x1_0000_0000 by { Pow2Add(16, 16); assert Pow2(16) == 65536 by { Pow2Add(8, 8); assert Pow2(8) == 256; } }
      var k := 4 * size;
      assert Pow256(k) == 256 * Pow256(k - 1) && Pow256(k - 1) == 256 * Pow256(k - 2);
      assert Pow256(k - 2) == 256 * Pow256(k - 3) && Pow256(k - 3) == 256 * Pow256(4 * (size - 1));
    }
  }

  /** What raising to the exponent computes, including the unreduced result for exponent 0. */
  function Raise(m: nat, e: nat, n: nat): nat
    requires n > 0
  {
    if e == 0 then 1 else Pow(m, e) % n
  }

  /** One RSA operation on `k`-byte strings. */
  function CipherBytes(s: seq<byte>, e: nat, n: nat, k: nat): (r: seq<byte>)
    requires n > 0
    ensures |r| == k
  {
    ToBE(Raise(FromBE(s), e, n), k)
  }

  /** `EM = 0x00 || 0x02 || PS || 0x00 || M` (section 7.2.1 of RFC 3447). */
  function EncodeMessage(ps: seq<byte>, m: seq<byte>): seq<byte> {
    [0x00, 0x02] + ps + [0x00] + m
  }

  function FirstZero(s: seq<byte>): (i: nat)
    ensures i <= |s| && 0 !in s[..i]
    ensures i < |s| ==> s[i] == 0
  {
    if s == [] || s[0] == 0 then 0 else 1 + FirstZero(s[1..])
  }

  /** The parse that `rsa_decrypt` performs (section 7.2.2 of RFC 3447). */
  function DecodeMessage(em: seq<byte>): Option<seq<byte>> {
    if |em| < 2 || em[0] != 0x00 || em[1] != 0x02 then None
    else
      var z := FirstZero(em[2..]);
      if z == |em| - 2 then None else Some(em[2..][z + 1..])
  }

  /** The first `n` non-zero bytes of a generator run, if it gets that far. */
  function NonZero(rng: seq<byte>, n: nat): Option<seq<byte>> {
    if n == 0 then Some([])
    else if rng == [] then None
    else if rng[0] == 0 then NonZero(rng[1..], n)
    else Prefixed([rng[0]], NonZero(rng[1..], n - 1))
  }

  lemma {:induction false} NonZeroMeaning(rng: seq<byte>, n: nat)
    ensures NonZero(rng, n).Some? ==> |NonZero(rng, n).value| == n && 0 !in NonZero(rng, n).value
    decreases |rng|
  {
    if n > 0 && rng != [] {
      NonZeroMeaning(rng[1..], n);
      NonZeroMeaning(rng[1..], n - 1);
    }
  }

  /** `get_random_nz`: overwrite each byte until it is non-zero. The generator yields `rng` one
      byte at a time and then fails with `failure`. */
  method GetRandomNz(data: array<byte>, start: nat, len: nat, rng: seq<byte>, failure: int) returns (rc: int)
    requires start + len <= data.Length && failure != 0
    modifies data
    ensures rc == if NonZero(rng, len).Some? then 0 else failure
    ensures rc == 0 ==> data[start..start + len] == NonZero(rng, len).value
    ensures data[..start] == old(data[..start]) && data[start + len..] == old(data[start + len..])
  {
    var i := 0;
    var used := 0;
    ghost var done: seq<byte> := [];
    assert rng[0..] == rng;
    PrefixedEmpty(NonZero(rng, len));
    while i < len
      invariant i <= len && used <= |rng|
      invariant done == data[start..start + i]
      invariant NonZero(rng, len) == Prefixed(done, NonZero(rng[used..], len - i))
      invariant data[..start] == old(data[..start]) && data[start + len..] == old(data[start + len..])
      decreases |rng| - used
    {
      ghost var rest := rng[used..];
      if used == |rng| {
        return failure;
      }
      assert rest[0] == rng[used] && rest[1..] == rng[used + 1..];
      data[start + i] := rng[used];
      if data[start + i] != 0 {
        PrefixedStep(done, rng[used], NonZero(rest[1..], len - i - 1));
        done := done + [rng[used]];
        i := i + 1;
      }
      used := used + 1;
    }
    assert NonZero(rng[used..], 0) == Some([]);
    assert done + [] == done;
    return 0;
  }

  lemma PrefixedEmpty(o: Option<seq<byte>>)
    ensures Prefixed([], o) == o
  {
    if o.Some? { assert [] + o.value == o.value; }
  }

  lemma PrefixedStep(s: seq<byte>, b: byte, o: Option<seq<byte>>)
    ensures Prefixed(s, Prefixed([b], o)) == Prefixed(s + [b], o)
  {
    if o.Some? { assert s + ([b] + o.value) == s + [b] + o.value; }
  }

  function Prefixed(s: seq<byte>, o: Option<seq<byte>>): Option<seq<byte>> {
    match o
    case None => None
    case Some(t) => Some(s + t)
  }

  datatype DigestAlgorithm = Md5 | Sha1 | Sha256 | Unlisted(size: nat) {
    function DigestSize(): nat {
      match this
      case Md5 => 16
      case Sha1 => 20
      case Sha256 => 32
      case Unlisted(n) => n
    }
  }

  /** The digestInfo prefix table (section 9.2 of RFC 3447). */
  const PREFIXES: seq<(DigestAlgorithm, seq<byte>)> := [
    (Md5, [0x30, 0x20, 0x30, 0x0c, 0x06, 0x08, 0x2a, 0x86, 0x48, 0x86, 0xf7, 0x0d, 0x02, 0x05, 0x05, 0x00, 0x04, 0x10]),
    (Sha1, [0x30, 0x21, 0x30, 0x09, 0x06, 0x05, 0x2b, 0x0e, 0x03, 0x02, 0x1a, 0x05, 0x00, 0x04, 0x14]),
    (Sha256, [0x30, 0x31, 0x30, 0x0d, 0x06, 0x09, 0x60, 0x86, 0x48, 0x01, 0x65, 0x03, 0x04, 0x02, 0x01, 0x05, 0x00, 0x04, 0x20])]

  function FindPrefix(table: seq<(DigestAlgorithm, seq<byte>)>, d: DigestAlgorithm): Option<seq<byte>> {
    if table == [] then None
    else if table[0].0 == d then Some(table[0].1)
    else FindPrefix(table[1..], d)
  }

  /** `EM = 0x00 || 0x01 || 0xff... || 0x00 || T` (section 9.2 of RFC 3447), if it fits `k` bytes. */
  function EncodeDigest(d: DigestAlgorithm, value: seq<byte>, k: nat): (em: Option<seq<byte>>)
    ensures em.Some? ==> |em.value| == k
  {
    match FindPrefix(PREFIXES, d)
    case None => None
    case Some(prefix) =>
      if |prefix + value| + 11 > k then None else Some(Padded(prefix + value, k))
  }

  function Padded(t: seq<byte>, k: nat): (em: seq<byte>)
    requires |t| + 11 <= k
    ensures |em| == k
  {
    [0x00, 0x01] + Repeat(0xff, k - 3 - |t|) + [0x00] + t
  }

  /** What an operation returns, unless it writes past the end of its working buffer first. */
  datatype Outcome = Done(rc: int) | Overrun

  /** The length test of `rsa_encrypt` and `rsa_encode_digest`: the limit `k - 11` is computed in a
      `size_t` of `w` values. */
  predicate Refused(p: nat, k: nat, w: nat)
    requires w > 0
  {
    p > (k - 11) % w
  }

  /** The test keeps the 11 bytes of overhead free, and the buffer in bounds, exactly for moduli
      of at least 11 bytes. */
  lemma RefusedIff(k: nat, w: nat)
    requires k < w && 11 <= w
    ensures (forall p: nat | p < w :: Refused(p, k, w) <==> p + 11 > k) <==> k >= 11
    ensures (forall p: nat | p < w :: !Refused(p, k, w) ==> p + 3 <= k) <==> k >= 11
  {
    if k >= 11 {
      ModWithin(k - 11, w);
    } else {
      ModOnce(k - 11, w);
      assert !Refused(k, k, w);
    }
  }

  /** A modulus of ten bytes accepts a message longer than itself. */
  lemma ShortModulusAccepts()
    ensures !Refused(12, 10, 0x1_0000_0000)
  {
    ModOnce(-1, 0x1_0000_0000);
  }

  lemma ModWithin(x: int, w: nat)
    requires 0 <= x < w
    ensures x % w == x
  {
    DivUnique(x, w, 0, x);
  }

  lemma ModOnce(x: int, w: nat)
    requires 0 < w && x < 0 <= x + w
    ensures x % w == x + w
  {
    DivUnique(x, w, -1, x + w);
  }

  /** An RSA context: one key and the two working buffers that every operation reuses. */
  class Context {
    const modulus: nat
    const exponent: nat
    const size: nat
    const maxLen: nat
    const word: nat
    const input0: array<byte>
    const output0: array<byte>

    ghost predicate Valid() reads this {
      && size > 0 && 0 < maxLen <= 4 * size < word && 11 <= word
      && input0.Length == output0.Length == 4 * size && input0 != output0
      && 0 < modulus < Pow256(maxLen)
    }

    /** `rsa_alloc` for a modulus of any length that `rsa_parse_integer` lets through; `w` is the
        number of values of a `size_t`. */
    constructor (n: nat, e: nat, len: nat, w: nat)
      requires 0 < len && 0 < n < Pow256(len) && len + 11 < w
      ensures Valid() && modulus == n && exponent == e && maxLen == len && word == w
      ensures fresh(input0) && fresh(output0)
    {
      modulus, exponent, maxLen, word := n, e, len, w;
      size := (len + 3) / 4;
      input0 := new byte[4 * ((len + 3) / 4)](_ => 0);
      output0 := new byte[4 * ((len + 3) / 4)](_ => 0);
    }

    /** `rsa_cipher`. The input may lie in the output buffer and the output may go to the input
        buffer, as the callers below arrange. */
    method Cipher(input: array<byte>, out: array<byte>)
      requires Valid() && maxLen <= input.Length && maxLen <= out.Length
      requires input != input0 && out != output0
      modifies input0, output0, out
      ensures out[..maxLen] == CipherBytes(old(input[..maxLen]), exponent, modulus, maxLen)
      ensures out == input0 ==> forall k :: maxLen <= k < out.Length ==> out[k] == 0
      ensures out != input0 ==> out[maxLen..] == old(out[maxLen..])
    {
      ghost var s := input[..maxLen];
      BigintInit(input0, input, maxLen);
      var m := FromLE(input0[..]);
      FromBEBound(s);
      RangeIsBytes(size);
      Pow256Monotone(maxLen, 4 * size);
      var r := ModExp(m, modulus, exponent, size);
      BigintStore(output0, r);
      BigintDone(output0, out, maxLen);
      RaiseIsModExp(m, exponent, modulus, r);
    }

    /** `rsa_encrypt` */
    method Encrypt(plaintext: seq<byte>, rng: seq<byte>, failure: int, ciphertext: array<byte>) returns (r: Outcome)
      requires Valid() && |plaintext| < word && failure < 0
      requires maxLen <= ciphertext.Length && ciphertext != input0 && ciphertext != output0
      modifies input0, output0, ciphertext
      ensures Refused(|plaintext|, maxLen, word) ==> r == Done(-ERANGE)
      ensures r == Overrun <==> !Refused(|plaintext|, maxLen, word) && |plaintext| + 3 > maxLen
      ensures !Refused(|plaintext|, maxLen, word) && |plaintext| + 3 <= maxLen ==>
                match NonZero(rng, maxLen - 3 - |plaintext|)
                case None => r == Done(failure)
                case Some(ps) =>
                  && r == Done(maxLen)
                  && ciphertext[..maxLen] == CipherBytes(EncodeMessage(ps, plaintext), exponent, modulus, maxLen)
      ensures r != Done(maxLen) ==> ciphertext[..] == old(ciphertext[..])
      ensures ciphertext[maxLen..] == old(ciphertext[maxLen..])
    {
      var limit := (maxLen - 11) % word;
      if |plaintext| > limit {
        return Done(-ERANGE);
      }
      var nzLen := (limit - |plaintext| + 8) % word;
      PaddingLength(|plaintext|, maxLen, word);
      if 2 + nzLen >= maxLen {
        return Overrun;
      }
      var rc := WriteMessage(plaintext, nzLen, rng, failure);
      if rc != 0 {
        return Done(rc);
      }
      Cipher(output0, ciphertext);
      return Done(maxLen);
    }

    /** Build the encoded message in the output buffer. */
    method WriteMessage(plaintext: seq<byte>, nzLen: nat, rng: seq<byte>, failure: int) returns (rc: int)
      requires Valid() && failure < 0 && nzLen + 3 + |plaintext| == maxLen
      modifies output0
      ensures match NonZero(rng, nzLen)
              case None => rc == failure
              case Some(ps) => rc == 0 && output0[..maxLen] == EncodeMessage(ps, plaintext)
    {
      output0[0] := 0x00;
      output0[1] := 0x02;
      rc := GetRandomNz(output0, 2, nzLen, rng, failure);
      if rc != 0 {
        return;
      }
      ghost var ps := NonZero(rng, nzLen).value;
      NonZeroMeaning(rng, nzLen);
      output0[2 + nzLen] := 0x00;
      CopyIn(output0, maxLen - |plaintext|, plaintext);
      assert output0[..maxLen] == EncodeMessage(ps, plaintext);
    }

    /** `rsa_decrypt` */
    method Decrypt(ciphertext: array<byte>, plaintext: array<byte>) returns (rc: int)
      requires Valid() && maxLen <= plaintext.Length
      requires ciphertext != input0 && ciphertext != output0 && plaintext != input0 && plaintext != output0
      modifies input0, output0, plaintext
      ensures ciphertext.Length != maxLen ==> rc == -ERANGE
      ensures ciphertext.Length == maxLen ==>
                match DecodeMessage(CipherBytes(old(ciphertext[..]), exponent, modulus, maxLen))
                case None => rc == -EINVAL
                case Some(m) => rc == |m| <= plaintext.Length && plaintext[..rc] == m && plaintext[rc..] == old(plaintext[rc..])
      ensures rc < 0 ==> plaintext[..] == old(plaintext[..])
    {
      if ciphertext.Length != maxLen {
        return -ERANGE;
      }
      assert ciphertext[..maxLen] == ciphertext[..];
      Cipher(ciphertext, input0);
      ghost var em := input0[..maxLen];
      if maxLen == 1 {
        // The second byte lies beyond the number: it still holds the zero padding of the input.
        assert input0[1] == 0;
      }
      if input0[0] != 0x00 || input0[1] != 0x02 {
        return -EINVAL;
      }
      var zero := 2;
      while zero < maxLen && input0[zero] != 0
        invariant 2 <= zero <= maxLen
        invariant FirstZero(em[2..]) == zero - 2 + FirstZero(em[zero..])
      {
        assert em[zero..][1..] == em[zero + 1..];
        zero := zero + 1;
      }
      if zero == maxLen {
        return -EINVAL;
      }
      var start := zero + 1;
      CopyIn(plaintext, 0, input0[start..maxLen]);
      assert em[2..][zero - 2 + 1..] == em[start..];
      return maxLen - start;
    }

    /** `rsa_encode_digest` into one of the working buffers. */
    method WriteDigest(d: DigestAlgorithm, value: seq<byte>, encoded: array<byte>) returns (r: Outcome)
      requires Valid() && |value| == d.DigestSize() && |value| + 64 < word && maxLen <= encoded.Length
      modifies encoded
      ensures r == DigestOutcome(d, value, maxLen, word)
      ensures r == Done(0) ==> EncodeDigest(d, value, maxLen) == Some(encoded[..maxLen])
      ensures r != Done(0) ==> encoded[..] == old(encoded[..])
      ensures encoded[maxLen..] == old(encoded[maxLen..])
    {
      var found := FindPrefix(PREFIXES, d);
      if found.None? {
        return Done(-ENOTSUP);
      }
      var prefix := found.value;
      var digestinfoLen := |prefix| + |value|;
      var limit := (maxLen - 11) % word;
      if digestinfoLen > limit {
        return Done(-ERANGE);
      }
      var padLen := (limit - digestinfoLen + 8) % word;
      PaddingLength(digestinfoLen, maxLen, word);
      if 2 + padLen >= maxLen {
        return Overrun;
      }
      DigestOverhead(d, value, maxLen, word);
      WritePadded(encoded, maxLen, padLen, prefix, value);
      return Done(0);
    }

    /** `rsa_sign` */
    method Sign(d: DigestAlgorithm, value: seq<byte>, signature: array<byte>) returns (r: Outcome)
      requires Valid() && |value| == d.DigestSize() && |value| + 64 < word && maxLen <= signature.Length
      requires signature != input0 && signature != output0
      modifies input0, output0, signature
      ensures r == if DigestOutcome(d, value, maxLen, word) == Done(0) then Done(maxLen) else DigestOutcome(d, value, maxLen, word)
      ensures r != Done(maxLen) ==> signature[..] == old(signature[..])
      ensures signature[maxLen..] == old(signature[maxLen..])
      ensures r == Done(maxLen) ==>
                && EncodeDigest(d, value, maxLen).Some?
                && signature[..maxLen] == CipherBytes(EncodeDigest(d, value, maxLen).value, exponent, modulus, maxLen)
    {
      r := WriteDigest(d, value, output0);
      if r != Done(0) {
        return;
      }
      Cipher(output0, signature);
      return Done(maxLen);
    }

    /** `rsa_verify`: accept exactly the signatures that decipher to the encoded digest. */
    method Verify(d: DigestAlgorithm, value: seq<byte>, signature: array<byte>) returns (r: Outcome)
      requires Valid() && |value| == d.DigestSize() && |value| + 64 < word
      requires signature != input0 && signature != output0
      modifies input0, output0
      ensures signature.Length != maxLen ==> r == Done(-ERANGE)
      ensures signature.Length == maxLen ==>
                if DigestOutcome(d, value, maxLen, word) != Done(0) then r == DigestOutcome(d, value, maxLen, word)
                else if EncodeDigest(d, value, maxLen) == Some(CipherBytes(old(signature[..]), exponent, modulus, maxLen)) then r == Done(0)
                else r == Done(-EACCES_VERIFY)
    {
      if signature.Length != maxLen {
        return Done(-ERANGE);
      }
      assert signature[..maxLen] == signature[..];
      Cipher(signature, input0);
      ghost var expected := input0[..maxLen];
      r := WriteDigest(d, value, output0);
      if r != Done(0) {
        return;
      }
      for i := 0 to maxLen
        invariant output0[..i] == input0[..i]
      {
        if output0[i] != input0[i] {
          assert output0[..maxLen][i] != expected[i];
          return Done(-EACCES_VERIFY);
        }
      }
      assert output0[..maxLen] == expected;
      return Done(0);
    }
  }

  /** The padding length, computed in a `size_t`, is the room left for padding, or nearly a whole
      address space when there is none. */
  lemma PaddingLength(p: nat, k: nat, w: nat)
    requires k < w && p < w && 11 <= w && !Refused(p, k, w)
    ensures var n := ((k - 11) % w - p + 8) % w;
            if p + 3 <= k then n == k - 3 - p else 2 + n >= k
  {
    if k >= 11 {
      ModWithin(k - 11, w);
      ModWithin(k - 3 - p, w);
    } else {
      ModOnce(k - 11, w);
      var x := w + k - 3 - p;
      if p + 3 <= k {
        assert x == w + (k - 3 - p);
        DivUnique(x, w, 1, k - 3 - p);
      } else {
        ModWithin(x, w);
      }
    }
  }

  /** What `rsa_encode_digest` returns for a modulus of `k` bytes. */
  function DigestOutcome(d: DigestAlgorithm, value: seq<byte>, k: nat, w: nat): Outcome
    requires w > 0
  {
    match FindPrefix(PREFIXES, d)
    case None => Done(-ENOTSUP)
    case Some(prefix) =>
      if Refused(|prefix + value|, k, w) then Done(-ERANGE)
      else if |prefix + value| + 3 > k then Overrun
      else Done(0)
  }

  /** An encoded digest keeps the padding that section 9.2 of RFC 3447 asks for, and a modulus of
      fewer than 11 bytes overruns on every listed digest. */
  lemma DigestOverhead(d: DigestAlgorithm, value: seq<byte>, k: nat, w: nat)
    requires |value| == d.DigestSize() && |value| + 64 < w && 0 < k < w
    ensures k >= 11 ==> (DigestOutcome(d, value, k, w) == Done(0) <==> EncodeDigest(d, value, k).Some?)
    ensures k < 11 ==> DigestOutcome(d, value, k, w) == if FindPrefix(PREFIXES, d).None? then Done(-ENOTSUP) else Overrun
  {
    PrefixLength(PREFIXES, d);
    if k >= 11 { ModWithin(k - 11, w); } else { ModOnce(k - 11, w); }
  }

  lemma {:induction false} PrefixLength(table: seq<(DigestAlgorithm, seq<byte>)>, d: DigestAlgorithm)
    requires forall i :: 0 <= i < |table| ==> 15 <= |table[i].1| <= 19
    ensures FindPrefix(table, d).Some? ==> 15 <= |FindPrefix(table, d).value| <= 19
  {
    if table != [] && table[0].0 != d { PrefixLength(table[1..], d); }
  }

  /** Write at a running position and advance it. */
  method Append(dst: array<byte>, at: nat, src: seq<byte>) returns (next: nat)
    requires at + |src| <= dst.Length
    modifies dst
    ensures next == at + |src| && dst[..next] == old(dst[..at]) + src
    ensures forall i :: next <= i < dst.Length ==> dst[i] == old(dst[i])
  {
    CopyIn(dst, at, src);
    next := at + |src|;
  }

  method WritePadded(encoded: array<byte>, k: nat, padLen: nat, prefix: seq<byte>, value: seq<byte>)
    requires |prefix| + |value| + 11 <= k <= encoded.Length && padLen == k - 3 - (|prefix| + |value|)
    modifies encoded
    ensures encoded[..k] == Padded(prefix + value, k) && encoded[k..] == old(encoded[k..])
  {
    var temp := Append(encoded, 0, [0x00, 0x01]);
    temp := Append(encoded, temp, Repeat(0xff, padLen));
    temp := Append(encoded, temp, [0x00]);
    ghost var front := [0x00, 0x01] + Repeat(0xff, padLen) + [0x00];
    temp := Append(encoded, temp, prefix);
    temp := Append(encoded, temp, value);
    assert front + (prefix + value) == front + prefix + value;
  }

  lemma RaiseIsModExp(m: nat, e: nat, n: nat, r: nat)
    requires n > 0 && r % n == Pow(m, e) % n && (e > 0 || n > 1 ==> r < n) && (e == 0 ==> r == 1)
    ensures r == Raise(m, e, n)
  {
    if e > 0 { DivUnique(r, n, 0, r); }
  }

  /** Exponents that undo each other modulo an `n` of exactly `k` bytes. */
  ghost predicate KeyPair(n: nat, e: nat, d: nat, k: nat) {
    && k > 0 && Pow256(k - 1) <= n < Pow256(k) && n > 1
    && e > 0 && d > 0
    && forall m: nat :: m < n ==> Pow(m, e * d) % n == m
  }

  /** Enciphering with one exponent and then the other gives back any message representative. */
  lemma CipherInverse(em: seq<byte>, n: nat, e: nat, d: nat, k: nat)
    requires KeyPair(n, e, d, k) && |em| == k && em[0] == 0
    ensures CipherBytes(CipherBytes(em, e, n, k), d, n, k) == em
  {
    var m := FromBE(em);
    assert em == [0] + em[1..];
    FromBELeadingZero(em[1..]);
    FromBEBound(em[1..]);
    var c := Pow(m, e) % n;
    FromBEToBE(c, k);
    ModIdempotent(Pow(m, e), n);
    PowCongruent(c, Pow(m, e), d, n);
    PowMul(m, e, d);
    assert Pow(c, d) % n == m;
    ToBEFromBE(em);
  }

  lemma {:induction false} FirstZeroAfter(ps: seq<byte>, rest: seq<byte>)
    requires 0 !in ps && rest != [] && rest[0] == 0
    ensures FirstZero(ps + rest) == |ps|
  {
    if ps == [] {
      assert ps + rest == rest;
    } else {
      assert (ps + rest)[1..] == ps[1..] + rest;
      FirstZeroAfter(ps[1..], rest);
    }
  }

  /** Decoding an encoded message gives the message back, whatever non-zero padding was used. */
  lemma DecodeEncode(ps: seq<byte>, m: seq<byte>)
    requires 0 !in ps
    ensures DecodeMessage(EncodeMessage(ps, m)) == Some(m)
  {
    var em := EncodeMessage(ps, m);
    assert em[2..] == ps + ([0] + m);
    FirstZeroAfter(ps, [0] + m);
    assert em[2..][|ps| + 1..] == m;
  }

  /** Decryption undoes encryption for every plaintext that fits and every padding. */
  method EncryptDecrypt(pub: Context, priv: Context, plaintext: seq<byte>, rng: seq<byte>, failure: int,
                        ciphertext: array<byte>, out: array<byte>) returns (encrypted: Outcome, decrypted: int)
    requires pub.Valid() && priv.Valid() && pub.modulus == priv.modulus && pub.maxLen == priv.maxLen
    requires KeyPair(pub.modulus, pub.exponent, priv.exponent, pub.maxLen)
    requires |plaintext| < pub.word && failure < 0
    requires ciphertext.Length == pub.maxLen <= out.Length && ciphertext != out
    requires {pub.input0, pub.output0, priv.input0, priv.output0} !! {ciphertext, out}
    modifies pub.input0, pub.output0, priv.input0, priv.output0, ciphertext, out
    ensures encrypted == Done(pub.maxLen) <==>
            !Refused(|plaintext|, pub.maxLen, pub.word) && |plaintext| + 3 <= pub.maxLen && NonZero(rng, pub.maxLen - 3 - |plaintext|).Some?
    ensures encrypted == Done(pub.maxLen) ==> decrypted == |plaintext| && out[..|plaintext|] == plaintext
  {
    encrypted := pub.Encrypt(plaintext, rng, failure, ciphertext);
    decrypted := -EINVAL;
    if encrypted == Done(pub.maxLen) {
      ghost var ps := NonZero(rng, pub.maxLen - 3 - |plaintext|).value;
      NonZeroMeaning(rng, pub.maxLen - 3 - |plaintext|);
      CipherInverse(EncodeMessage(ps, plaintext), pub.modulus, pub.exponent, priv.exponent, pub.maxLen);
      DecodeEncode(ps, plaintext);
      assert ciphertext[..pub.maxLen] == ciphertext[..];
      decrypted := priv.Decrypt(ciphertext, out);
    }
  }

  /** Verification accepts every signature made with the matching private key, and of two digests
      of the same algorithm only the one that was signed. */
  method SignVerify(pub: Context, priv: Context, d: DigestAlgorithm, value: seq<byte>, other: seq<byte>, signature: array<byte>)
    returns (signed: Outcome, accepted: Outcome, acceptedOther: Outcome)
    requires pub.Valid() && priv.Valid() && pub.modulus == priv.modulus && pub.maxLen == priv.maxLen && pub.word == priv.word
    requires KeyPair(pub.modulus, priv.exponent, pub.exponent, pub.maxLen)
    requires |value| == |other| == d.DigestSize() && |value| + 64 < pub.word && signature.Length == pub.maxLen
    requires signature !in {pub.input0, pub.output0, priv.input0, priv.output0}
    modifies pub.input0, pub.output0, priv.input0, priv.output0, signature
    ensures signed == Done(pub.maxLen) <==> EncodeDigest(d, value, pub.maxLen).Some?
    ensures signed == Done(pub.maxLen) ==> accepted == Done(0) && (acceptedOther == Done(0) <==> other == value)
  {
    signed := priv.Sign(d, value, signature);
    accepted, acceptedOther := signed, signed;
    DigestOverhead(d, value, pub.maxLen, pub.word);
    if signed == Done(pub.maxLen) {
      ghost var em := EncodeDigest(d, value, pub.maxLen).value;
      CipherInverse(em, pub.modulus, priv.exponent, pub.exponent, pub.maxLen);
      assert signature[..pub.maxLen] == signature[..];
      accepted := pub.Verify(d, value, signature);
      acceptedOther := pub.Verify(d, other, signature);
      EncodeDigestInjective(d, value, other, pub.maxLen);
    }
  }

  lemma EncodeDigestInjective(d: DigestAlgorithm, x: seq<byte>, y: seq<byte>, k: nat)
    requires |x| == |y| && EncodeDigest(d, x, k).Some?
    ensures EncodeDigest(d, x, k) == EncodeDigest(d, y, k) <==> x == y
  {
    var prefix := FindPrefix(PREFIXES, d).value;
    assert Padded(prefix + x, k)[k - |x|..] == x;
    assert Padded(prefix + y, k)[k - |y|..] == y;
  }
}
