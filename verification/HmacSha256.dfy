/** HMAC on the streaming SHA-256 context: the digest algorithm of `Hmac` made concrete. */
module HmacSha256 {
  import opened Bits
  import opened Bytes
  import Hmac
  import Sha256

  /** What the SHA-256 code computes, for messages of any length. */
  function Hashed(f: Sha256.Compression, sizeMod: nat, m: seq<byte>): (h: seq<byte>)
    requires sizeMod > 0
    ensures |h| == Sha256.DIGEST
  {
    Sha256.DigestBytes(Sha256.Fold(f, Sha256.INITIAL, Sha256.Pad(m, Sha256.LengthField(|m|, sizeMod))))
  }

  /** `sha256_algorithm` */
  function Algorithm(f: Sha256.Compression, sizeMod: nat): (alg: Hmac.DigestAlgorithm)
    requires sizeMod > 0
    ensures alg.Ok() && alg.blocksize == Sha256.BLOCK && alg.digestsize == Sha256.DIGEST
  {
    Hmac.DigestAlgorithm((m: seq<byte>) => Hashed(f, sizeMod, m), Sha256.BLOCK, Sha256.DIGEST)
  }

  /** Below the limits of the length counters the hash is SHA-256 as specified. */
  lemma HashIsSpecified(f: Sha256.Compression, sizeMod: nat, m: seq<byte>)
    requires |m| < sizeMod && 8 * |m| < 0x1_0000_0000_0000_0000
    ensures Algorithm(f, sizeMod).hash(m) == Sha256.Specified(f, m)
  {
    hide Sha256.Fold, Sha256.Pad, Sha256.DigestBytes;
    DivUnique(|m|, sizeMod, 0, |m|);
    DivUnique(8 * |m|, 0x1_0000_0000_0000_0000, 0, 8 * |m|);
    assert Sha256.LengthField(|m|, sizeMod) == 8 * |m|;
  }

  /** Start afresh, absorb two pieces of data, and finish. */
  method HashOf(ctx: Sha256.Context, front: seq<byte>, rest: seq<byte>, out: array<byte>)
    requires ctx.Valid() && Sha256.DIGEST <= out.Length && out != ctx.ddd
    modifies ctx, ctx.ddd, out
    ensures ctx.Valid()
    ensures out[..Sha256.DIGEST] == Algorithm(ctx.compress, ctx.sizeMod).hash(front + rest)
    ensures out[Sha256.DIGEST..] == old(out[Sha256.DIGEST..])
  {
    ctx.Init();
    ctx.Update(front);
    ctx.Update(rest);
    assert ctx.message == front + rest;
    ctx.Final(out);
    ctx.Init();
  }

  /** `hmac_init`, `hmac_update` and `hmac_final` on a SHA-256 context: the code of `Hmac` over the
      code of `Sha256` computes HMAC, also when the output overwrites the key. */
  method ComputeHmac(ctx: Sha256.Context, key: array<byte>, keyLen: nat, text: seq<byte>, hmac: array<byte>)
    requires ctx.Valid() && keyLen <= key.Length && Sha256.DIGEST <= key.Length && Sha256.DIGEST <= hmac.Length
    requires key != ctx.ddd && hmac != ctx.ddd
    modifies ctx, ctx.ddd, key, hmac
    ensures hmac[..Sha256.DIGEST] == Hmac.Mac(Algorithm(ctx.compress, ctx.sizeMod), old(key[..keyLen]), text)
  {
    ghost var alg := Algorithm(ctx.compress, ctx.sizeMod);
    ghost var k := Hmac.Reduced(alg, key[..keyLen]);
    var len := keyLen;
    if len > Sha256.BLOCK {
      assert key[..keyLen] + [] == key[..keyLen];
      HashOf(ctx, key[..keyLen], [], key);
      len := Sha256.DIGEST;
    }
    var ipad := Hmac.BuildPad(key, len, Sha256.BLOCK, 0x36);
    var opad := Hmac.BuildPad(key, len, Sha256.BLOCK, 0x5c);
    assert key[..len] == k;
    HashOf(ctx, ipad[..], text, hmac);
    HashOf(ctx, opad[..], hmac[..Sha256.DIGEST], hmac);
  }
}
