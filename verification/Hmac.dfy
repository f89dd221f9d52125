/** HMAC over any digest algorithm, with the in-place key reduction and the aliased output
    buffer of the source. */
module Hmac {
  import opened Bytes

  /** A digest algorithm: what `digest_init`, `digest_update` and `digest_final` compute. */
  datatype DigestAlgorithm = DigestAlgorithm(hash: seq<byte> -> seq<byte>, blocksize: nat, digestsize: nat) {
    ghost predicate Ok() {
      && 0 < digestsize <= blocksize
      && forall m :: |hash(m)| == digestsize
    }
  }

  /** A digest context, known by the data accumulated in it. */
  class DigestContext {
    const alg: DigestAlgorithm
    var data: seq<byte>

    constructor (alg: DigestAlgorithm)
      ensures this.alg == alg
    {
      this.alg, this.data := alg, [];
    }

    method Init()
      modifies this
      ensures data == []
    {
      data := [];
    }

    method Update(more: seq<byte>)
      modifies this
      ensures data == old(data) + more
    {
      data := data + more;
    }

    /** Write the digest to the front of `out`. */
    method Final(out: array<byte>)
      requires alg.Ok() && alg.digestsize <= out.Length
      modifies this, out
      ensures out[..alg.digestsize] == alg.hash(old(data))
      ensures out[alg.digestsize..] == old(out[alg.digestsize..])
    {
      var digest := alg.hash(data);
      assert |digest| == alg.digestsize;
      for i := 0 to alg.digestsize
        invariant out[..i] == digest[..i] && out[alg.digestsize..] == old(out[alg.digestsize..])
      {
        out[i] := digest[i];
      }
    }
  }

  /** `K` as section 2 of RFC 2104 uses it: hashed first if longer than a block. */
  function Reduced(alg: DigestAlgorithm, key: seq<byte>): seq<byte> {
    if |key| > alg.blocksize then alg.hash(key) else key
  }

  /** The zero-padded key, exclusive-or the repeated byte `x`. */
  function KeyPad(key: seq<byte>, blocksize: nat, x: byte): (s: seq<byte>)
    requires |key| <= blocksize
    ensures |s| == blocksize
  {
    seq<byte>(blocksize, i requires 0 <= i < blocksize => Xor(if i < |key| then key[i] else 0, x))
  }

  /** `H ( K XOR opad, H ( K XOR ipad, text ) )` (section 2 of RFC 2104). */
  ghost function Mac(alg: DigestAlgorithm, key: seq<byte>, text: seq<byte>): (h: seq<byte>)
    requires alg.Ok()
    ensures |h| == alg.digestsize
  {
    var k := Reduced(alg, key);
    alg.hash(KeyPad(k, alg.blocksize, 0x5c) + alg.hash(KeyPad(k, alg.blocksize, 0x36) + text))
  }

  /** `hmac_reduce_key` */
  method ReduceKey(alg: DigestAlgorithm, key: array<byte>, keyLen: nat) returns (newLen: nat)
    requires alg.Ok() && keyLen <= key.Length && alg.digestsize <= key.Length
    modifies key
    ensures newLen == alg.digestsize && key[..newLen] == alg.hash(old(key[..keyLen]))
  {
    var ctx := new DigestContext(alg);
    ctx.Init();
    ctx.Update(key[..keyLen]);
    assert ctx.data == key[..keyLen];
    ctx.Final(key);
    newLen := alg.digestsize;
  }

  /** Build an input or output pad from a key that fits one block. */
  method BuildPad(key: array<byte>, keyLen: nat, blocksize: nat, x: byte) returns (pad: array<byte>)
    requires keyLen <= key.Length && keyLen <= blocksize
    ensures fresh(pad) && pad[..] == KeyPad(key[..keyLen], blocksize, x)
  {
    pad := new byte[blocksize](_ => 0);
    for i := 0 to keyLen
      invariant pad[..i] == key[..i] && forall k :: keyLen <= k < blocksize ==> pad[k] == 0
    {
      pad[i] := key[i];
    }
    for i := 0 to blocksize
      invariant forall k :: 0 <= k < i ==> pad[k] == KeyPad(key[..keyLen], blocksize, x)[k]
      invariant forall k :: i <= k < blocksize ==> pad[k] == if k < keyLen then key[k] else 0
    {
      pad[i] := Xor(pad[i], x);
    }
  }

  /** `hmac_init` */
  method HmacInit(ctx: DigestContext, key: array<byte>, keyLen: nat) returns (newLen: nat)
    requires ctx.alg.Ok() && keyLen <= key.Length && ctx.alg.digestsize <= key.Length
    modifies ctx, key
    ensures newLen <= key.Length && newLen <= ctx.alg.blocksize
    ensures key[..newLen] == Reduced(ctx.alg, old(key[..keyLen]))
    ensures keyLen <= ctx.alg.blocksize ==> newLen == keyLen && key[..] == old(key[..])
    ensures ctx.data == KeyPad(Reduced(ctx.alg, old(key[..keyLen])), ctx.alg.blocksize, 0x36)
  {
    newLen := keyLen;
    if newLen > ctx.alg.blocksize {
      newLen := ReduceKey(ctx.alg, key, newLen);
    }
    var ipad := BuildPad(key, newLen, ctx.alg.blocksize, 0x36);
    ctx.Init();
    ctx.Update(ipad[..]);
    assert ctx.data == ipad[..];
  }

  /** `hmac_final`. The output may overwrite the key: the pad is built first. */
  method HmacFinal(ctx: DigestContext, key: array<byte>, keyLen: nat, hmac: array<byte>) returns (newLen: nat)
    requires ctx.alg.Ok() && keyLen <= key.Length && ctx.alg.digestsize <= key.Length && ctx.alg.digestsize <= hmac.Length
    modifies ctx, key, hmac
    ensures hmac[..ctx.alg.digestsize] ==
            ctx.alg.hash(KeyPad(Reduced(ctx.alg, old(key[..keyLen])), ctx.alg.blocksize, 0x5c) + ctx.alg.hash(old(ctx.data)))
    ensures newLen == if keyLen > ctx.alg.blocksize then ctx.alg.digestsize else keyLen
    ensures keyLen <= ctx.alg.blocksize && key != hmac ==> key[..] == old(key[..])
    ensures keyLen <= ctx.alg.blocksize ==> hmac[ctx.alg.digestsize..] == old(hmac[ctx.alg.digestsize..])
  {
    newLen := keyLen;
    ghost var before := ctx.data;
    if newLen > ctx.alg.blocksize {
      newLen := ReduceKey(ctx.alg, key, newLen);
    }
    var opad := BuildPad(key, newLen, ctx.alg.blocksize, 0x5c);
    ctx.Final(hmac);
    ctx.Init();
    ctx.Update(opad[..]);
    ctx.Update(hmac[..ctx.alg.digestsize]);
    assert ctx.data == opad[..] + ctx.alg.hash(before);
    ctx.Final(hmac);
  }

  /** The three calls together compute HMAC of the original key, also when the output buffer is
      the key buffer itself. */
  method ComputeHmac(alg: DigestAlgorithm, key: array<byte>, keyLen: nat, text: seq<byte>, hmac: array<byte>)
    requires alg.Ok() && keyLen <= key.Length && alg.digestsize <= key.Length && alg.digestsize <= hmac.Length
    modifies key, hmac
    ensures hmac[..alg.digestsize] == Mac(alg, old(key[..keyLen]), text)
  {
    var ctx := new DigestContext(alg);
    ghost var k := key[..keyLen];
    var len := HmacInit(ctx, key, keyLen);
    ctx.Update(text);
    ReducedIdempotent(alg, k);
    len := HmacFinal(ctx, key, len, hmac);
  }

  lemma ReducedIdempotent(alg: DigestAlgorithm, key: seq<byte>)
    requires alg.Ok()
    ensures Reduced(alg, Reduced(alg, key)) == Reduced(alg, key)
  {
    assert |alg.hash(key)| == alg.digestsize;
  }
}
