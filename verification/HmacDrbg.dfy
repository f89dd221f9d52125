/** The HMAC_DRBG algorithm: key, value and reseed counter updated in place. */
module HmacDrbg {
  import opened Platform
  import opened Bits
  import opened Bytes
  import opened Memory
  import opened Hmac

  const RESEED_INTERVAL: nat := 1024
  const MAX_OUTLEN: nat := 64

  /** The secret part of the working state. */
  datatype Working = Working(k: seq<byte>, v: seq<byte>)

  ghost function UpdateKey(alg: DigestAlgorithm, w: Working, single: byte, data: seq<byte>): Working
    requires alg.Ok()
  {
    Working(Mac(alg, w.k, w.v + [single] + data), w.v)
  }

  ghost function UpdateValue(alg: DigestAlgorithm, w: Working): Working
    requires alg.Ok()
  {
    Working(w.k, Mac(alg, w.k, w.v))
  }

  /** HMAC_DRBG_Update (NIST SP 800-90 section 10.1.2.2). */
  ghost function Updated(alg: DigestAlgorithm, w: Working, data: seq<byte>): Working
    requires alg.Ok()
  {
    var w1 := UpdateValue(alg, UpdateKey(alg, w, 0x00, data));
    if data == [] then w1 else UpdateValue(alg, UpdateKey(alg, w1, 0x01, data))
  }

  /** The chain of keyed hashes that makes up an update: a new key over value, zero byte and data, and a
      new value under it; with data, the same once more with the byte 1. */
  ghost predicate UpdateChain(alg: DigestAlgorithm, w: Working, data: seq<byte>, k1: seq<byte>, v1: seq<byte>, w': Working)
    requires alg.Ok()
  {
    && k1 == Mac(alg, w.k, w.v + [0x00] + data)
    && v1 == Mac(alg, k1, w.v)
    && (data == [] ==> w' == Working(k1, v1))
    && (data != [] ==> w'.k == Mac(alg, k1, v1 + [0x01] + data) && w'.v == Mac(alg, w'.k, v1))
  }

  /** The working state after instantiation (NIST SP 800-90 section 10.1.2.3). */
  ghost function Fresh(alg: DigestAlgorithm, seed: seq<byte>): Working
    requires alg.Ok()
  {
    Updated(alg, Working(Repeat(0x00, alg.digestsize), Repeat(0x01, alg.digestsize)), seed)
  }

  /** The first `len` bytes of `V1 || V2 || ...`, each `V` the HMAC of the one before. */
  ghost function Output(alg: DigestAlgorithm, w: Working, len: nat): (s: seq<byte>)
    requires alg.Ok()
    ensures |s| == len
    decreases len
  {
    var v := Mac(alg, w.k, w.v);
    if len <= |v| then v[..len] else v + Output(alg, Working(w.k, v), len - |v|)
  }

  /** The working state after that output was produced. */
  ghost function AfterOutput(alg: DigestAlgorithm, w: Working, len: nat): Working
    requires alg.Ok()
    decreases len
  {
    if len == 0 then w
    else
      var v := Mac(alg, w.k, w.v);
      AfterOutput(alg, Working(w.k, v), if len <= |v| then 0 else len - |v|)
  }

  /** `V` after `n` rounds `V = HMAC ( K, V )`. */
  ghost function Rounds(alg: DigestAlgorithm, w: Working, n: nat): seq<byte>
    requires alg.Ok()
  {
    if n == 0 then w.v else Mac(alg, w.k, Rounds(alg, w, n - 1))
  }

  lemma {:induction false} RoundsShift(alg: DigestAlgorithm, w: Working, n: nat)
    requires alg.Ok()
    ensures Rounds(alg, Working(w.k, Mac(alg, w.k, w.v)), n) == Rounds(alg, w, n + 1)
  {
    hide Mac;
    if n > 0 { RoundsShift(alg, w, n - 1); }
  }

  /** Byte `p` of the output comes from round `p / outlen + 1`. */
  lemma {:induction false} OutputAt(alg: DigestAlgorithm, w: Working, len: nat, p: nat)
    requires alg.Ok() && p < len
    ensures var q, r := p / alg.digestsize, p % alg.digestsize;
            q >= 0 && r < |Rounds(alg, w, q + 1)| && Output(alg, w, len)[p] == Rounds(alg, w, q + 1)[r]
    decreases len
  {
    hide Mac;
    var d := alg.digestsize;
    var v := Mac(alg, w.k, w.v);
    assert Rounds(alg, w, 0) == w.v && Rounds(alg, w, 1) == v;
    if p < d {
      DivUnique(p, d, 0, p);
    } else {
      var w' := Working(w.k, v);
      OutputAt(alg, w', len - d, p - d);
      var q, r := (p - d) / d, (p - d) % d;
      assert p == (q + 1) * d + r;
      DivUnique(p, d, q + 1, r);
      RoundsShift(alg, w, q + 1);
    }
  }

  /** The value left behind is that of the last round needed. */
  lemma {:induction false} AfterOutputIs(alg: DigestAlgorithm, w: Working, len: nat)
    requires alg.Ok()
    ensures var n := (len + alg.digestsize - 1) / alg.digestsize;
            n >= 0 && AfterOutput(alg, w, len) == Working(w.k, Rounds(alg, w, n))
    decreases len
  {
    hide Mac;
    var d := alg.digestsize;
    if len == 0 {
      DivUnique(d - 1, d, 0, d - 1);
    } else {
      var v := Mac(alg, w.k, w.v);
      var left := if len <= d then 0 else len - d;
      AfterOutputIs(alg, Working(w.k, v), left);
      var n := (left + d - 1) / d;
      if len <= d { DivUnique(d - 1, d, 0, d - 1); DivUnique(len + d - 1, d, 1, len - 1); }
      else {
        var r := (left + d - 1) % d;
        assert len + d - 1 == (n + 1) * d + r;
        DivUnique(len + d - 1, d, n + 1, r);
      }
      RoundsShift(alg, w, n);
    }
  }

  /** A shorter request is a prefix of a longer one from the same state. */
  lemma {:induction false} OutputPrefix(alg: DigestAlgorithm, w: Working, n: nat, m: nat)
    requires alg.Ok() && n <= m
    ensures Output(alg, w, n) == Output(alg, w, m)[..n]
    decreases m
  {
    var v := Mac(alg, w.k, w.v);
    if m > |v| && n > |v| {
      OutputPrefix(alg, Working(w.k, v), n - |v|, m - |v|);
    }
  }

  /** HMAC_DRBG_Generate with the counter in range (NIST SP 800-90 section 10.1.2.5). */
  ghost function Mixed(alg: DigestAlgorithm, w: Working, additional: seq<byte>): Working
    requires alg.Ok()
  {
    if additional == [] then w else Updated(alg, w, additional)
  }

  ghost function Generated(alg: DigestAlgorithm, w: Working, additional: seq<byte>, len: nat): seq<byte>
    requires alg.Ok()
  {
    Output(alg, Mixed(alg, w, additional), len)
  }

  ghost function AfterGenerate(alg: DigestAlgorithm, w: Working, additional: seq<byte>, len: nat): Working
    requires alg.Ok()
  {
    Updated(alg, AfterOutput(alg, Mixed(alg, w, additional), len), additional)
  }

  class State {
    const hash: DigestAlgorithm
    const key: array<byte>
    const value: array<byte>
    var reseedCounter: nat

    ghost predicate Valid() reads this {
      && hash.Ok() && hash.digestsize <= MAX_OUTLEN
      && key.Length == value.Length == MAX_OUTLEN && key != value
    }

    ghost function Now(): Working
      requires Valid()
      reads this, key, value
    {
      Working(key[..hash.digestsize], value[..hash.digestsize])
    }

    constructor (hash: DigestAlgorithm)
      requires hash.Ok() && hash.digestsize <= MAX_OUTLEN
      ensures Valid() && this.hash == hash && fresh(key) && fresh(value) && reseedCounter == 0
    {
      this.hash, this.reseedCounter := hash, 0;
      key := new byte[MAX_OUTLEN](_ => 0);
      value := new byte[MAX_OUTLEN](_ => 0);
    }

    /** `hmac_drbg_update_key`: `K = HMAC ( K, V || single || provided_data )`, written over `K`. */
    method DoUpdateKey(data: seq<byte>, single: byte)
      requires Valid()
      modifies key
      ensures Now() == UpdateKey(hash, old(Now()), single, data)
    {
      var outLen := hash.digestsize;
      var context := new DigestContext(hash);
      ghost var k := key[..outLen];
      outLen := HmacInit(context, key, outLen);
      context.Update(value[..outLen]);
      context.Update([single]);
      context.Update(data);
      ghost var pad := KeyPad(k, hash.blocksize, 0x36);
      assert context.data == pad + (value[..outLen] + [single] + data);
      outLen := HmacFinal(context, key, outLen, key);
    }

    /** `hmac_drbg_update_value`: `V = HMAC ( K, V )`. */
    method DoUpdateValue()
      requires Valid()
      modifies key, value
      ensures Now() == UpdateValue(hash, old(Now()))
    {
      var outLen := hash.digestsize;
      var context := new DigestContext(hash);
      outLen := HmacInit(context, key, outLen);
      context.Update(value[..outLen]);
      outLen := HmacFinal(context, key, outLen, value);
    }

    /** `hmac_drbg_update` */
    method Update(data: seq<byte>)
      requires Valid()
      modifies key, value
      ensures Now() == Updated(hash, old(Now()), data)
      ensures var w := old(Now());
              var k1 := Mac(hash, w.k, w.v + [0x00] + data);
              UpdateChain(hash, w, data, k1, Mac(hash, k1, w.v), Now())
    {
      hide Mac;
      DoUpdateKey(data, 0x00);
      DoUpdateValue();
      if |data| == 0 {
        return;
      }
      DoUpdateKey(data, 0x01);
      DoUpdateValue();
    }

    /** `hmac_drbg_reseed` */
    method Reseed(entropy: seq<byte>, additional: seq<byte>)
      requires Valid()
      modifies this, key, value
      ensures Now() == Updated(hash, old(Now()), entropy + additional) && reseedCounter == 1
    {
      Update(entropy + additional);
      reseedCounter := 1;
    }

    /** `hmac_drbg_instantiate` */
    method Instantiate(entropy: seq<byte>, personal: seq<byte>)
      requires Valid()
      modifies this, key, value
      ensures reseedCounter == 1
      ensures Now() == Fresh(hash, entropy + personal)
    {
      for i := 0 to hash.digestsize
        invariant key[..i] == Repeat(0x00, i) && value[..i] == Repeat(0x01, i)
      {
        key[i] := 0x00;
        value[i] := 0x01;
      }
      Reseed(entropy, personal);
    }

    /** Zero the whole state. */
    method Erase()
      requires Valid()
      modifies this, key, value
      ensures Now() == Working(Repeat(0, hash.digestsize), Repeat(0, hash.digestsize)) && reseedCounter == 0
    {
      for i := 0 to MAX_OUTLEN
        invariant key[..i] == Repeat(0, i) && value[..i] == Repeat(0, i)
      {
        key[i], value[i] := 0, 0;
      }
      assert key[..MAX_OUTLEN][..hash.digestsize] == Repeat(0, hash.digestsize);
      assert value[..MAX_OUTLEN][..hash.digestsize] == Repeat(0, hash.digestsize);
      reseedCounter := 0;
    }

    /** `hmac_drbg_generate` */
    method Generate(additional: seq<byte>, data: array<byte>, len: nat) returns (rc: int)
      requires Valid() && len <= data.Length && data != key && data != value
      modifies this, key, value, data
      ensures rc == if old(reseedCounter) > RESEED_INTERVAL then -ESTALE else 0
      ensures rc != 0 ==> Now() == old(Now()) && reseedCounter == old(reseedCounter) && data[..] == old(data[..])
      ensures rc == 0 ==>
                && data[..len] == Generated(hash, old(Now()), additional, len)
                && Now() == AfterGenerate(hash, old(Now()), additional, len)
                && reseedCounter == old(reseedCounter) + 1
      ensures data[len..] == old(data[len..])
    {
      if reseedCounter > RESEED_INTERVAL {
        return -ESTALE;
      }
      if |additional| != 0 {
        Update(additional);
      }
      Fill(data, len);
      Update(additional);
      reseedCounter := reseedCounter + 1;
      return 0;
    }

    /** The output loop of `hmac_drbg_generate`. */
    method Fill(data: array<byte>, len: nat)
      requires Valid() && len <= data.Length && data != key && data != value
      modifies key, value, data
      ensures data[..len] == Output(hash, old(Now()), len)
      ensures Now() == AfterOutput(hash, old(Now()), len)
      ensures data[len..] == old(data[len..])
    {
      hide Mac, UpdateValue, Output, AfterOutput;
      ghost var w := Now();
      var done := 0;
      while done < len
        invariant done <= len
        invariant Output(hash, w, len) == data[..done] + Output(hash, Now(), len - done)
        invariant AfterOutput(hash, w, len) == AfterOutput(hash, Now(), len - done)
        invariant data[len..] == old(data[len..])
        decreases len - done
      {
        ghost var before, front := Now(), data[..done];
        var fragLen := Fragment(data, done, len);
        OutputStep(hash, before, len - done);
        ConcatAssoc(front, Now().v[..fragLen], Output(hash, Now(), len - done - fragLen));
        done := done + fragLen;
      }
      OutputNone(hash, Now());
    }

    /** One more value, as much of it as is still wanted. */
    method Fragment(data: array<byte>, done: nat, len: nat) returns (fragLen: nat)
      requires Valid() && done < len <= data.Length && data != key && data != value
      modifies key, value, data
      ensures Now() == UpdateValue(hash, old(Now()))
      ensures fragLen == if len - done <= hash.digestsize then len - done else hash.digestsize
      ensures data[..done + fragLen] == old(data[..done]) + Now().v[..fragLen]
      ensures data[len..] == old(data[len..])
    {
      DoUpdateValue();
      fragLen := len - done;
      if fragLen > hash.digestsize {
        fragLen := hash.digestsize;
      }
      CopyIn(data, done, value[..fragLen]);
    }
  }

  lemma ConcatAssoc(x: seq<byte>, y: seq<byte>, z: seq<byte>)
    ensures x + (y + z) == (x + y) + z
  {
  }

  lemma OutputNone(alg: DigestAlgorithm, w: Working)
    requires alg.Ok()
    ensures Output(alg, w, 0) == [] && AfterOutput(alg, w, 0) == w
  {
  }

  lemma OutputStep(alg: DigestAlgorithm, w: Working, len: nat)
    requires alg.Ok() && len > 0
    ensures var v := UpdateValue(alg, w).v;
            var n := if len <= |v| then len else |v|;
            && Output(alg, w, len) == v[..n] + Output(alg, UpdateValue(alg, w), len - n)
            && AfterOutput(alg, w, len) == AfterOutput(alg, UpdateValue(alg, w), len - n)
  {
  }
}
