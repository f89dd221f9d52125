/** Streaming SHA-256 around an arbitrary compression function, on the context layout of the
    source: digest and data block share one buffer of big-endian words that every compression
    byte-swaps in place. */
module Sha256 {
  import opened Bits
  import opened Bytes

  const BLOCK: nat := 64
  const DIGEST: nat := 32
  /** Offset of the length field in the final block. */
  const LEN_OFFSET: nat := 56

  type Word = x: int | 0 <= x < 0x1_0000_0000
  type Digest = h: seq<Word> | |h| == 8 witness seq(8, _ => 0)
  type Chunk = w: seq<Word> | |w| == 16 witness seq(16, _ => 0)
  type Compression = (Digest, Chunk) -> Digest

  const INITIAL: Digest := [0x6a09e667, 0xbb67ae85, 0x3c6ef372, 0xa54ff53a, 0x510e527f, 0x9b05688c, 0x1f83d9ab, 0x5be0cd19]

  lemma FourBytes()
    ensures Pow256(4) == 0x1_0000_0000 && Pow256(8) == 0x1_0000_0000_0000_0000
  {
    assert Pow256(2) == 65536;
    assert Pow256(4) == 256 * (256 * Pow256(2));
    assert Pow256(6) == 256 * (256 * Pow256(4));
    assert Pow256(8) == 256 * (256 * Pow256(6));
  }

  /** The big-endian word stored at byte `4 * i`. */
  function WordAt(s: seq<byte>, i: nat): Word
    requires 4 * i + 4 <= |s|
  {
    FromBEBound(s[4 * i..4 * i + 4]);
    FourBytes();
    FromBE(s[4 * i..4 * i + 4])
  }

  function Words(s: seq<byte>): (w: seq<Word>)
    ensures |w| == |s| / 4
  {
    seq(|s| / 4, i requires 0 <= i < |s| / 4 => WordAt(s, i))
  }

  function DigestBytes(h: seq<Word>): (s: seq<byte>)
    ensures |s| == 4 * |h|
  {
    if h == [] then [] else DigestBytes(h[..|h| - 1]) + ToBE(h[|h| - 1], 4)
  }

  /** Reading words and writing them back are inverse. */
  lemma {:induction false} WordsDigestBytes(h: seq<Word>)
    ensures Words(DigestBytes(h)) == h
  {
    if h != [] {
      var t, w := h[..|h| - 1], h[|h| - 1];
      var s := DigestBytes(h);
      WordsDigestBytes(t);
      FourBytes();
      FromBEToBE(w, 4);
      assert s[4 * |t|..4 * |t| + 4] == ToBE(w, 4);
      forall i | 0 <= i < |h| ensures Words(s)[i] == h[i] {
        if i < |t| {
          assert s[4 * i..4 * i + 4] == DigestBytes(t)[4 * i..4 * i + 4];
          assert Words(DigestBytes(t))[i] == t[i];
        }
      }
    }
  }

  /** Fold the compression function over whole blocks. */
  function Fold(f: Compression, h: Digest, s: seq<byte>): Digest
    requires |s| % BLOCK == 0
    decreases |s|
  {
    if s == [] then h else f(Fold(f, h, s[..|s| - BLOCK]), Words(s[|s| - BLOCK..]))
  }

  /** Zero bytes needed after the `0x80` so that the length field ends the block. */
  function ZeroCount(n: nat): (z: nat)
    ensures z < BLOCK && (n + 1 + z) % BLOCK == LEN_OFFSET
  {
    (LEN_OFFSET - 1 - n) % BLOCK
  }

  /** The padding of section 5.1.1 of FIPS 180-4, with `bits` in the length field. */
  function Pad(s: seq<byte>, bits: nat): (p: seq<byte>)
    ensures |p| % BLOCK == 0
  {
    s + [0x80] + Repeat(0, ZeroCount(|s|)) + ToBE(bits, 8)
  }

  /** SHA-256 as specified: pad with the true length in bits, then fold. */
  function Specified(f: Compression, s: seq<byte>): seq<byte> {
    DigestBytes(Fold(f, INITIAL, Pad(s, 8 * |s|)))
  }

  /** The value of the length field that `sha256_final` computes from a `size_t` byte count. */
  function LengthField(n: nat, sizeMod: nat): nat
    requires sizeMod > 0
  {
    (8 * (n % sizeMod)) % 0x1_0000_0000_0000_0000
  }

  /** For every message the standard covers, the padding is the specified one exactly when the
      byte count does not wrap. */
  lemma PaddingIsSpecifiedIff(s: seq<byte>, sizeMod: nat)
    requires sizeMod > 0 && 8 * |s| < 0x1_0000_0000_0000_0000
    ensures Pad(s, LengthField(|s|, sizeMod)) == Pad(s, 8 * |s|) <==> |s| < sizeMod
  {
    var n := |s|;
    LengthFieldExactIff(n, sizeMod);
    PadInjective(s, LengthField(n, sizeMod), 8 * n);
  }

  lemma LengthFieldExactIff(n: nat, sizeMod: nat)
    requires sizeMod > 0 && 8 * n < 0x1_0000_0000_0000_0000
    ensures LengthField(n, sizeMod) < 0x1_0000_0000_0000_0000
    ensures LengthField(n, sizeMod) == 8 * n <==> n < sizeMod
  {
    var r := n % sizeMod;
    if n < sizeMod {
      DivUnique(n, sizeMod, 0, n);
    } else {
      assert r < sizeMod;
    }
    DivUnique(8 * r, 0x1_0000_0000_0000_0000, 0, 8 * r);
  }

  lemma PadInjective(s: seq<byte>, x: nat, y: nat)
    requires x < 0x1_0000_0000_0000_0000 && y < 0x1_0000_0000_0000_0000
    ensures Pad(s, x) == Pad(s, y) <==> x == y
  {
    var front := s + [0x80] + Repeat(0, ZeroCount(|s|));
    assert Pad(s, x)[|front|..] == ToBE(x, 8);
    assert Pad(s, y)[|front|..] == ToBE(y, 8);
    FourBytes();
    FromBEToBE(x, 8);
    FromBEToBE(y, 8);
  }

  class Context {
    const compress: Compression
    /** `size_t` counts modulo this. */
    const sizeMod: nat
    var len: nat
    /** Digest (32 bytes) followed by the data block (64 bytes). */
    const ddd: array<byte>
    /** Everything accumulated so far. */
    ghost var message: seq<byte>

    ghost predicate Valid() reads this, ddd {
      && ddd.Length == DIGEST + BLOCK
      && sizeMod > 0 && sizeMod % BLOCK == 0
      && len == |message| % sizeMod
      && Words(ddd[..DIGEST]) == Fold(compress, INITIAL, Whole(message))
      && ddd[DIGEST..DIGEST + |message| % BLOCK] == Rest(message)
    }

    constructor (compress: Compression, sizeMod: nat)
      requires sizeMod > 0 && sizeMod % BLOCK == 0
      ensures Valid() && message == [] && this.compress == compress && this.sizeMod == sizeMod && fresh(ddd)
    {
      this.compress, this.sizeMod, this.len, this.message := compress, sizeMod, 0, [];
      ddd := new byte[DIGEST + BLOCK](_ => 0);
      new;
      Init();
    }

    /** `sha256_init` */
    method Init()
      requires ddd.Length == DIGEST + BLOCK && sizeMod > 0 && sizeMod % BLOCK == 0
      modifies this, ddd
      ensures Valid() && message == []
    {
      WriteDigest(INITIAL);
      len := 0;
      message := [];
      WordsDigestBytes(INITIAL);
    }

    method WriteDigest(h: Digest)
      requires ddd.Length == DIGEST + BLOCK
      modifies ddd
      ensures ddd[..DIGEST] == DigestBytes(h) && ddd[DIGEST..] == old(ddd[DIGEST..])
    {
      var s := DigestBytes(h);
      for i := 0 to DIGEST
        invariant ddd[..i] == s[..i] && ddd[DIGEST..] == old(ddd[DIGEST..])
      {
        ddd[i] := s[i];
      }
    }

    /** `sha256_digest`: swap every word of digest and data to host order in place, compress, and
        write the digest back in big-endian order. The data block is left scrambled. */
    method DigestData()
      requires ddd.Length == DIGEST + BLOCK
      modifies ddd
      ensures Words(ddd[..DIGEST]) == compress(Words(old(ddd[..DIGEST])), Words(old(ddd[DIGEST..])))
    {
      ghost var s := ddd[..];
      var host: seq<Word> := [];
      for i := 0 to 24
        invariant |host| == i && forall k :: 0 <= k < i ==> host[k] == WordAt(s, k)
        invariant forall k :: 4 * i <= k < DIGEST + BLOCK ==> ddd[k] == s[k]
      {
        var j := 4 * i;
        ddd[j], ddd[j + 1], ddd[j + 2], ddd[j + 3] := ddd[j + 3], ddd[j + 2], ddd[j + 1], ddd[j];
        HostWord(s, i);
        host := host + [HostOrder(ddd[j], ddd[j + 1], ddd[j + 2], ddd[j + 3])];
      }
      SplitWords(s, host);
      var h := compress(host[..8], host[8..]);
      WriteDigest(h);
      WordsDigestBytes(h);
    }

    /** `sha256_update` */
    method Update(data: seq<byte>)
      requires Valid()
      modifies this, ddd
      ensures Valid() && message == old(message) + data
    {
      for i := 0 to |data|
        invariant Valid() && message == old(message) + data[..i]
      {
        UpdateByte(data[i]);
        assert data[..i + 1] == data[..i] + [data[i]];
        assert old(message) + data[..i] + [data[i]] == old(message) + (data[..i] + [data[i]]);
      }
      assert data[..|data|] == data;
    }

    method UpdateByte(b: byte)
      requires Valid()
      modifies this, ddd
      ensures Valid() && message == old(message) + [b]
    {
      var offset := len % BLOCK;
      CountStep(|message|, sizeMod);
      ddd[DIGEST + offset] := b;
      len := (len + 1) % sizeMod;
      AppendByte(message, b);
      message := message + [b];
      if len % BLOCK == 0 {
        assert ddd[DIGEST..] == Rest(old(message)) + [b];
        assert ddd[..DIGEST] == old(ddd[..DIGEST]);
        DigestData();
        FoldStep(compress, old(message), b);
      } else {
        assert ddd[..DIGEST] == old(ddd[..DIGEST]);
      }
    }

    /** `sha256_final` */
    method Final(out: array<byte>)
      requires Valid() && DIGEST <= out.Length && out != ddd
      modifies this, ddd, out
      ensures out[..DIGEST] == DigestBytes(Fold(compress, INITIAL, Pad(old(message), LengthField(|old(message)|, sizeMod))))
      ensures |old(message)| < sizeMod && 8 * |old(message)| < 0x1_0000_0000_0000_0000 ==> out[..DIGEST] == Specified(compress, old(message))
      ensures out[DIGEST..] == old(out[DIGEST..])
    {
      ghost var m := message;
      var lenBits := (8 * len) % 0x1_0000_0000_0000_0000;
      PadToLength();
      Update(ToBE(lenBits, 8));
      assert message == Pad(m, lenBits) && Whole(message) == message;
      DigestBytesWords(ddd[..DIGEST]);
      CopyDigest(out);
      if |m| < sizeMod && 8 * |m| < 0x1_0000_0000_0000_0000 { PaddingIsSpecifiedIff(m, sizeMod); }
    }

    /** A single one bit, then zero bits up to the length field. */
    method PadToLength()
      requires Valid()
      modifies this, ddd
      ensures Valid() && message == old(message) + [0x80] + Repeat(0, ZeroCount(|old(message)|))
    {
      ghost var m, z := message, ZeroCount(|message|);
      UpdateByte(0x80);
      ghost var zeros := 0;
      assert m + [0x80] == m + [0x80] + Repeat(0, 0);
      while len % BLOCK != LEN_OFFSET
        invariant Valid() && 0 <= zeros <= z && message == m + [0x80] + Repeat(0, zeros)
        decreases z - zeros
      {
        ZerosLeft(m, message, zeros, len, sizeMod);
        UpdateByte(0x00);
        OneMoreZero(m + [0x80], zeros);
        zeros := zeros + 1;
      }
      ZerosLeft(m, message, zeros, len, sizeMod);
    }

    method CopyDigest(out: array<byte>)
      requires ddd.Length == DIGEST + BLOCK && DIGEST <= out.Length && out != ddd
      modifies out
      ensures out[..DIGEST] == ddd[..DIGEST] && out[DIGEST..] == old(out[DIGEST..])
    {
      for i := 0 to DIGEST
        invariant out[..i] == ddd[..i] && out[DIGEST..] == old(out[DIGEST..])
      {
        out[i] := ddd[i];
      }
    }
  }

  /** The bytes already compressed and those still in the data block. */
  ghost function Whole(s: seq<byte>): (w: seq<byte>)
    ensures |w| % BLOCK == 0
  {
    s[..|s| - |s| % BLOCK]
  }

  ghost function Rest(s: seq<byte>): seq<byte> {
    s[|s| - |s| % BLOCK..]
  }

  function HostOrder(a: byte, b: byte, c: byte, d: byte): Word {
    var x: int, y: int, z: int, w: int := a, b, c, d;
    x + 0x100 * y + 0x1_0000 * z + 0x100_0000 * w
  }

  /** The little-endian reading of a swapped word is its big-endian reading before the swap. */
  lemma HostWord(s: seq<byte>, i: nat)
    requires 4 * i + 4 <= |s|
    ensures HostOrder(s[4 * i + 3], s[4 * i + 2], s[4 * i + 1], s[4 * i]) == WordAt(s, i)
  {
    var t := s[4 * i..4 * i + 4];
    assert t == [s[4 * i], s[4 * i + 1], s[4 * i + 2], s[4 * i + 3]];
    assert t[..3][..2][..1][..0] == [] && t[..3] == [t[0], t[1], t[2]] && t[..3][..2] == [t[0], t[1]] && t[..3][..2][..1] == [t[0]];
    assert FromBE(t[..3][..2][..1]) == t[0];
    assert FromBE(t[..3][..2]) == FromBE(t[..3][..2][..1]) * 256 + t[1];
    assert FromBE(t[..3]) == FromBE(t[..3][..2]) * 256 + t[2];
  }

  lemma SplitWords(s: seq<byte>, host: seq<Word>)
    requires |s| == DIGEST + BLOCK && |host| == 24 && forall k :: 0 <= k < 24 ==> host[k] == WordAt(s, k)
    ensures host[..8] == Words(s[..DIGEST]) && host[8..] == Words(s[DIGEST..])
  {
    forall k | 0 <= k < 8 ensures host[k] == Words(s[..DIGEST])[k] {
      assert s[..DIGEST][4 * k..4 * k + 4] == s[4 * k..4 * k + 4];
    }
    forall k | 0 <= k < 16 ensures host[8 + k] == Words(s[DIGEST..])[k] {
      assert s[DIGEST..][4 * k..4 * k + 4] == s[4 * (8 + k)..4 * (8 + k) + 4];
    }
  }

  /** Counting modulo a multiple of the block size keeps the position in the block. */
  lemma CountStep(n: nat, m: nat)
    requires m > 0 && m % BLOCK == 0
    ensures (n % m) % BLOCK == n % BLOCK
    ensures (n % m + 1) % m == (n + 1) % m
    ensures ((n % m + 1) % m) % BLOCK == (n + 1) % BLOCK
  {
    ModOfMultiple(n, BLOCK, m);
    ModOfMultiple(n + 1, BLOCK, m);
    var q, r := n / m, n % m;
    if r + 1 < m {
      DivUnique(n + 1, m, q, r + 1);
      DivUnique(r + 1, m, 0, r + 1);
    } else {
      assert n + 1 == (q + 1) * m by { assert (q + 1) * m == q * m + m; }
      DivUnique(n + 1, m, q + 1, 0);
      DivUnique(m, m, 1, 0);
    }
  }

  lemma AppendByte(s: seq<byte>, b: byte)
    ensures (|s| + 1) % BLOCK != 0 ==> Whole(s + [b]) == Whole(s) && Rest(s + [b]) == Rest(s) + [b]
    ensures (|s| + 1) % BLOCK != 0 ==> (|s| + 1) % BLOCK == |s| % BLOCK + 1
    ensures (|s| + 1) % BLOCK == 0 ==> Whole(s + [b]) == s + [b] && Rest(s + [b]) == [] && |Rest(s)| == BLOCK - 1
  {
  }

  lemma FoldStep(f: Compression, s: seq<byte>, b: byte)
    requires (|s| + 1) % BLOCK == 0
    ensures Fold(f, INITIAL, Whole(s + [b])) == f(Fold(f, INITIAL, Whole(s)), Words(Rest(s) + [b]))
  {
    hide Words;
    AppendByte(s, b);
    var t := s + [b];
    assert t[..|t| - BLOCK] == Whole(s);
    assert t[|t| - BLOCK..] == Rest(s) + [b];
  }

  lemma OneMoreZero(s: seq<byte>, n: nat)
    ensures s + Repeat(0, n) + [0] == s + Repeat(0, n + 1)
  {
    assert Repeat(0, n) + [0] == Repeat(0, n + 1);
    assert s + Repeat(0, n) + [0] == s + (Repeat(0, n) + [0]);
  }

  lemma ZerosLeft(m: seq<byte>, padded: seq<byte>, zeros: nat, len: nat, sizeMod: nat)
    requires padded == m + [0x80] + Repeat(0, zeros) && zeros <= ZeroCount(|m|)
    requires sizeMod > 0 && sizeMod % BLOCK == 0 && len == |padded| % sizeMod
    ensures len % BLOCK == LEN_OFFSET <==> zeros == ZeroCount(|m|)
  {
    var n := |m|;
    assert |padded| == n + 1 + zeros;
    ModOfMultiple(n + 1 + zeros, BLOCK, sizeMod);
    SameResidue(n + 1 + zeros, n + 1 + ZeroCount(n));
  }

  lemma SameResidue(x: nat, y: nat)
    requires x <= y < x + BLOCK
    ensures x % BLOCK == y % BLOCK <==> x == y
  {
  }

  lemma {:induction false} DigestBytesWords(s: seq<byte>)
    requires |s| % 4 == 0
    ensures DigestBytes(Words(s)) == s
  {
    if s != [] {
      var n := |s| - 4;
      var t := s[..n];
      DigestBytesWords(t);
      WordsSnoc(s);
      ToBEFromBE(s[n..]);
      assert s == t + s[n..];
    }
  }

  lemma WordsSnoc(s: seq<byte>)
    requires |s| % 4 == 0 && |s| >= 4
    ensures var n := |s| - 4; Words(s) == Words(s[..n]) + [FromBE(s[n..])]
  {
    var n := |s| - 4;
    var t := s[..n];
    forall i | 0 <= i < |Words(t)| ensures Words(s)[i] == Words(t)[i] {
      assert t[4 * i..4 * i + 4] == s[4 * i..4 * i + 4];
    }
    var k := n / 4;
    assert s[4 * k..4 * k + 4] == s[n..];
    assert Words(s)[k] == WordAt(s, k);
  }
}
