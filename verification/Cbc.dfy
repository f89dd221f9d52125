/** Cipher block chaining over any block cipher. */
module Cbc {
  import Bits
  import opened Bytes
  import opened Memory

  type Data = seq<byte>

  /** A block cipher: block size, and what it does with one block. */
  datatype Cipher = Cipher(blocksize: nat, enc: Data -> Data, dec: Data -> Data)

  ghost predicate Ok(c: Cipher) {
    && c.blocksize > 0 && c.blocksize % 4 == 0
    && (forall b: Data :: |b| == c.blocksize ==> |c.enc(b)| == c.blocksize && |c.dec(b)| == c.blocksize)
  }

  ghost predicate Inverts(c: Cipher) { forall b: Data :: |b| == c.blocksize ==> c.dec(c.enc(b)) == b }

  function XorAll(a: Data, b: Data): (x: Data)
    requires |a| == |b|
    ensures |x| == |a|
  {
    seq<byte>(|a|, i requires 0 <= i < |a| => Xor(a[i], b[i]))
  }

  lemma XorAllTwice(a: Data, b: Data)
    requires |a| == |b|
    ensures XorAll(XorAll(a, b), b) == a
  {
    forall i | 0 <= i < |a| ensures XorAll(XorAll(a, b), b)[i] == a[i] { XorTwice(a[i], b[i]); }
  }

  /** Data made of `n` whole blocks. */
  ghost predicate Whole(c: Cipher, data: Data, n: nat)
    decreases n
  {
    if n == 0 then data == [] else |data| >= c.blocksize && Whole(c, data[c.blocksize..], n - 1)
  }

  lemma OneBlockLess(n: nat, bs: nat)
    requires n > 0 && bs > 0 && n % bs == 0
    ensures n >= bs && (n - bs) % bs == 0 && n / bs == (n - bs) / bs + 1
  {
    if n < bs { Bits.DivUnique(n, bs, 0, n); }
    var q := n / bs;
    assert n == q * bs;
    Bits.DivUnique(n - bs, bs, q - 1, 0);
  }

  /** A length divisible by the block size is that many whole blocks. */
  lemma {:induction false} WholeOf(c: Cipher, data: Data)
    requires c.blocksize > 0 && |data| % c.blocksize == 0
    ensures Whole(c, data, |data| / c.blocksize)
    decreases |data|
  {
    var bs := c.blocksize;
    if data != [] {
      OneBlockLess(|data|, bs);
      WholeOf(c, data[bs..]);
    }
  }

  ghost function Encrypted(c: Cipher, iv: Data, data: Data, n: nat): (out: Data)
    requires Ok(c) && |iv| == c.blocksize && Whole(c, data, n)
    ensures |out| == |data| && Whole(c, out, n)
    decreases n
  {
    if n == 0 then [] else
      var b := c.enc(XorAll(iv, data[..c.blocksize]));
      var rest := Encrypted(c, b, data[c.blocksize..], n - 1);
      assert (b + rest)[c.blocksize..] == rest;
      b + rest
  }

  ghost function Decrypted(c: Cipher, iv: Data, data: Data, n: nat): (out: Data)
    requires Ok(c) && |iv| == c.blocksize && Whole(c, data, n)
    ensures |out| == |data|
    decreases n
  {
    if n == 0 then [] else
      var b := data[..c.blocksize];
      XorAll(c.dec(b), iv) + Decrypted(c, b, data[c.blocksize..], n - 1)
  }

  /** The chaining context after some ciphertext: its last block. */
  ghost function Chained(c: Cipher, iv: Data, data: Data, n: nat): (ctx: Data)
    requires |iv| == c.blocksize && Whole(c, data, n)
    ensures |ctx| == c.blocksize
    decreases n
  {
    if n == 0 then iv else Chained(c, data[..c.blocksize], data[c.blocksize..], n - 1)
  }

  /** Block `i` of some data. */
  ghost function BlockAt(c: Cipher, data: Data, i: nat, n: nat): (b: Data)
    requires Whole(c, data, n) && i < n
    ensures |b| == c.blocksize
    decreases n
  {
    if i == 0 then data[..c.blocksize] else BlockAt(c, data[c.blocksize..], i - 1, n - 1)
  }

  /** Each ciphertext block is the encryption of the plaintext block combined with the ciphertext block
      before it, or with the initial context. */
  lemma {:induction false} EncryptedBlock(c: Cipher, iv: Data, data: Data, i: nat, n: nat)
    requires Ok(c) && |iv| == c.blocksize && Whole(c, data, n) && i < n
    ensures var out := Encrypted(c, iv, data, n);
            BlockAt(c, out, i, n) == c.enc(XorAll(if i == 0 then iv else BlockAt(c, out, i - 1, n), BlockAt(c, data, i, n)))
    decreases n
  {
    hide XorAll;
    var bs := c.blocksize;
    var b := c.enc(XorAll(iv, data[..bs]));
    var rest := Encrypted(c, b, data[bs..], n - 1);
    var out := Encrypted(c, iv, data, n);
    assert out == b + rest && out[..bs] == b && out[bs..] == rest;
    if i > 0 { EncryptedBlock(c, b, data[bs..], i - 1, n - 1); }
  }

  /** Each plaintext block is the decryption of the ciphertext block, combined with the ciphertext block
      before it, or with the initial context. */
  lemma {:induction false} DecryptedBlock(c: Cipher, iv: Data, data: Data, i: nat, n: nat)
    requires Ok(c) && |iv| == c.blocksize && Whole(c, data, n) && i < n
    ensures Whole(c, Decrypted(c, iv, data, n), n)
    ensures BlockAt(c, Decrypted(c, iv, data, n), i, n) ==
            XorAll(c.dec(BlockAt(c, data, i, n)), if i == 0 then iv else BlockAt(c, data, i - 1, n))
    decreases n
  {
    hide XorAll;
    var bs := c.blocksize;
    var b := data[..bs];
    var first, rest := XorAll(c.dec(b), iv), Decrypted(c, b, data[bs..], n - 1);
    var out := Decrypted(c, iv, data, n);
    assert out == first + rest && out[..bs] == first && out[bs..] == rest;
    if n > 1 { DecryptedBlock(c, b, data[bs..], if i > 0 then i - 1 else 0, n - 1); }
  }

  /** Decryption undoes encryption, for any initial context. */
  lemma {:induction false} DecryptEncrypt(c: Cipher, iv: Data, data: Data, n: nat)
    requires Ok(c) && Inverts(c) && |iv| == c.blocksize && Whole(c, data, n)
    ensures Decrypted(c, iv, Encrypted(c, iv, data, n), n) == data
    decreases n
  {
    hide XorAll, Encrypted, Decrypted, Chained, Inverts;
    if n == 0 {
      NothingLeft(c, iv, data, n);
    } else {
      var bs := c.blocksize;
      var p, tail := data[..bs], data[bs..];
      var b := c.enc(XorAll(iv, p));
      EncryptFirst(c, iv, data, n);
      Unmask(c, iv, p);
      var e, rest := Encrypted(c, iv, data, n), Encrypted(c, b, tail, n - 1);
      DecryptFirst(c, iv, e, n);
      assert e[..bs] == b && e[bs..] == rest;
      DecryptEncrypt(c, b, tail, n - 1);
      assert data == p + tail;
    }
  }

  lemma Unmask(c: Cipher, iv: Data, p: Data)
    requires Ok(c) && Inverts(c) && |iv| == |p| == c.blocksize
    ensures XorAll(c.dec(c.enc(XorAll(iv, p))), iv) == p
  {
    hide XorAll;
    XorCommutes(iv, p);
    XorAllTwice(p, iv);
  }

  lemma XorCommutes(a: Data, b: Data)
    requires |a| == |b|
    ensures XorAll(a, b) == XorAll(b, a)
  {
    forall i | 0 <= i < |a| ensures XorAll(a, b)[i] == XorAll(b, a)[i] { XorSymmetric(a[i], b[i], 8); }
  }

  lemma {:induction false} XorSymmetric(a: nat, b: nat, k: nat)
    ensures XorBits(a, b, k) == XorBits(b, a, k)
  {
    if k > 0 { XorSymmetric(a / 2, b / 2, k - 1); }
  }

  lemma {:induction false} WholeConcat(c: Cipher, a: Data, b: Data, m: nat, n: nat)
    requires Whole(c, a, m) && Whole(c, b, n)
    ensures Whole(c, a + b, m + n)
    decreases m
  {
    if m == 0 {
      assert a + b == b;
    } else {
      assert (a + b)[c.blocksize..] == a[c.blocksize..] + b;
      WholeConcat(c, a[c.blocksize..], b, m - 1, n);
    }
  }

  lemma EncryptFirst(c: Cipher, iv: Data, data: Data, n: nat)
    requires Ok(c) && |iv| == c.blocksize && n > 0 && Whole(c, data, n)
    ensures var x := c.enc(XorAll(iv, data[..c.blocksize]));
            var tail := Encrypted(c, x, data[c.blocksize..], n - 1);
            var e := Encrypted(c, iv, data, n);
            |x| == c.blocksize && e == x + tail && Chained(c, iv, e, n) == Chained(c, x, tail, n - 1)
  {
    var x := c.enc(XorAll(iv, data[..c.blocksize]));
    var tail := Encrypted(c, x, data[c.blocksize..], n - 1);
    assert (x + tail)[..c.blocksize] == x && (x + tail)[c.blocksize..] == tail;
  }

  /** Encrypting in two calls that share the context is the same as encrypting in one. */
  lemma {:induction false} EncryptSplit(c: Cipher, iv: Data, a: Data, b: Data, m: nat, n: nat)
    requires Ok(c) && |iv| == c.blocksize && Whole(c, a, m) && Whole(c, b, n) && Whole(c, a + b, m + n)
    ensures Encrypted(c, iv, a + b, m + n)
         == Encrypted(c, iv, a, m) + Encrypted(c, Chained(c, iv, Encrypted(c, iv, a, m), m), b, n)
    decreases m
  {
    hide XorAll, Encrypted, Decrypted, Chained;
    if m == 0 {
      NothingLeft(c, iv, a, m);
      assert a + b == b;
    } else {
      var bs := c.blocksize;
      assert (a + b)[..bs] == a[..bs] && (a + b)[bs..] == a[bs..] + b;
      var x := c.enc(XorAll(iv, a[..bs]));
      EncryptFirst(c, iv, a, m);
      EncryptFirst(c, iv, a + b, m + n);
      EncryptSplit(c, x, a[bs..], b, m - 1, n);
      var d := Encrypted(c, x, a[bs..], m - 1);
      Regroup(x, d, Encrypted(c, Chained(c, x, d, m - 1), b, n));
    }
  }

  lemma Regroup(x: Data, d: Data, e: Data)
    ensures x + (d + e) == (x + d) + e
  {
  }

  lemma {:induction false} DecryptSplit(c: Cipher, iv: Data, a: Data, b: Data, m: nat, n: nat)
    requires Ok(c) && |iv| == c.blocksize && Whole(c, a, m) && Whole(c, b, n) && Whole(c, a + b, m + n)
    ensures Decrypted(c, iv, a + b, m + n)
         == Decrypted(c, iv, a, m) + Decrypted(c, Chained(c, iv, a, m), b, n)
    decreases m
  {
    hide XorAll, Encrypted, Decrypted, Chained;
    if m == 0 {
      NothingLeft(c, iv, a, m);
      assert a + b == b;
    } else {
      var bs := c.blocksize;
      var x := a[..bs];
      assert (a + b)[..bs] == x && (a + b)[bs..] == a[bs..] + b;
      DecryptFirst(c, iv, a, m);
      DecryptFirst(c, iv, a + b, m + n);
      DecryptSplit(c, x, a[bs..], b, m - 1, n);
      Regroup(XorAll(c.dec(x), iv), Decrypted(c, x, a[bs..], m - 1), Decrypted(c, Chained(c, x, a[bs..], m - 1), b, n));
    }
  }

  /** Any number of calls, each with whole blocks, carrying the context along. */
  ghost predicate AllWhole(c: Cipher, calls: seq<Data>, ns: seq<nat>) {
    |calls| == |ns| && forall i :: 0 <= i < |calls| ==> Whole(c, calls[i], ns[i])
  }

  ghost function Joined(calls: seq<Data>): Data {
    if calls == [] then [] else calls[0] + Joined(calls[1..])
  }

  ghost function Total(ns: seq<nat>): nat {
    if ns == [] then 0 else ns[0] + Total(ns[1..])
  }

  ghost function EncryptCalls(c: Cipher, iv: Data, calls: seq<Data>, ns: seq<nat>): Data
    requires Ok(c) && |iv| == c.blocksize && AllWhole(c, calls, ns)
    decreases |calls|
  {
    if calls == [] then [] else
      var e := Encrypted(c, iv, calls[0], ns[0]);
      e + EncryptCalls(c, Chained(c, iv, e, ns[0]), calls[1..], ns[1..])
  }

  ghost function DecryptCalls(c: Cipher, iv: Data, calls: seq<Data>, ns: seq<nat>): Data
    requires Ok(c) && |iv| == c.blocksize && AllWhole(c, calls, ns)
    decreases |calls|
  {
    if calls == [] then [] else
      Decrypted(c, iv, calls[0], ns[0]) + DecryptCalls(c, Chained(c, iv, calls[0], ns[0]), calls[1..], ns[1..])
  }

  lemma {:induction false} JoinedWhole(c: Cipher, calls: seq<Data>, ns: seq<nat>)
    requires AllWhole(c, calls, ns)
    ensures Whole(c, Joined(calls), Total(ns))
    decreases |calls|
  {
    if calls != [] {
      JoinedWhole(c, calls[1..], ns[1..]);
      WholeConcat(c, calls[0], Joined(calls[1..]), ns[0], Total(ns[1..]));
    }
  }

  /** However the data is split into calls, the result is that of one call. */
  lemma {:induction false} EncryptAnySplit(c: Cipher, iv: Data, calls: seq<Data>, ns: seq<nat>)
    requires Ok(c) && |iv| == c.blocksize && AllWhole(c, calls, ns)
    ensures Whole(c, Joined(calls), Total(ns))
    ensures EncryptCalls(c, iv, calls, ns) == Encrypted(c, iv, Joined(calls), Total(ns))
    decreases |calls|
  {
    JoinedWhole(c, calls, ns);
    if calls != [] {
      JoinedWhole(c, calls[1..], ns[1..]);
      EncryptSplit(c, iv, calls[0], Joined(calls[1..]), ns[0], Total(ns[1..]));
      EncryptAnySplit(c, Chained(c, iv, Encrypted(c, iv, calls[0], ns[0]), ns[0]), calls[1..], ns[1..]);
    }
  }

  lemma {:induction false} DecryptAnySplit(c: Cipher, iv: Data, calls: seq<Data>, ns: seq<nat>)
    requires Ok(c) && |iv| == c.blocksize && AllWhole(c, calls, ns)
    ensures Whole(c, Joined(calls), Total(ns))
    ensures DecryptCalls(c, iv, calls, ns) == Decrypted(c, iv, Joined(calls), Total(ns))
    decreases |calls|
  {
    JoinedWhole(c, calls, ns);
    if calls != [] {
      JoinedWhole(c, calls[1..], ns[1..]);
      DecryptSplit(c, iv, calls[0], Joined(calls[1..]), ns[0], Total(ns[1..]));
      DecryptAnySplit(c, Chained(c, iv, calls[0], ns[0]), calls[1..], ns[1..]);
    }
  }

  // ----- In memory -----

  /** `cbc_xor`: combine `src` into the context. */
  method XorInto(src: Data, dst: array<byte>)
    requires |src| == dst.Length
    modifies dst
    ensures dst[..] == XorAll(old(dst[..]), src)
  {
    for i := 0 to |src|
      invariant forall k :: 0 <= k < i ==> dst[k] == Xor(old(dst[k]), src[k])
      invariant forall k :: i <= k < |src| ==> dst[k] == old(dst[k])
    {
      dst[i] := Xor(dst[i], src[i]);
    }
  }

  /** The destination does not begin inside the source, past its start. */
  predicate Clear(src: nat, dst: nat, len: nat) { dst <= src || src + len <= dst }

  method EncryptBlock(c: Cipher, mem: array<byte>, src: nat, dst: nat, ctx: array<byte>)
    requires Ok(c) && ctx.Length == c.blocksize && ctx != mem
    requires src + c.blocksize <= mem.Length && dst + c.blocksize <= mem.Length
    modifies mem, ctx
    ensures var x := c.enc(XorAll(old(ctx[..]), Window(old(mem[..]), src, c.blocksize)));
            |x| == c.blocksize && ctx[..] == x && mem[..] == Replace(old(mem[..]), dst, x)
  {
    hide XorAll, Replace;
    var bs := c.blocksize;
    assert mem[src..src + bs] == Window(mem[..], src, bs);
    XorInto(mem[src..src + bs], ctx);
    var x := c.enc(ctx[..]);
    CopyIn(mem, dst, x);
    WindowOfReplace(old(mem[..]), dst, x);
    assert mem[dst..dst + bs] == Window(mem[..], dst, bs) == x;
    Overwrite(ctx, mem[dst..dst + bs]);
  }

  method DecryptBlock(c: Cipher, mem: array<byte>, src: nat, dst: nat, ctx: array<byte>)
    requires Ok(c) && ctx.Length == c.blocksize && ctx != mem
    requires src + c.blocksize <= mem.Length && dst + c.blocksize <= mem.Length
    modifies mem, ctx
    ensures var b := Window(old(mem[..]), src, c.blocksize);
            ctx[..] == b && mem[..] == Replace(old(mem[..]), dst, XorAll(c.dec(b), old(ctx[..])))
  {
    hide XorAll, Replace;
    var bs := c.blocksize;
    assert mem[src..src + bs] == Window(mem[..], src, bs);
    var next := mem[src..src + bs];
    var x := new byte[bs](_ => 0);
    Overwrite(x, c.dec(next));
    XorInto(ctx[..], x);
    CopyIn(mem, dst, x[..]);
    Overwrite(ctx, next);
  }

  method Overwrite(a: array<byte>, data: Data)
    requires |data| == a.Length
    modifies a
    ensures a[..] == data
  {
    CopyIn(a, 0, data);
  }

  /** What is left to read is not disturbed by writing the next block. */
  lemma RestIntact(m: Data, src: nat, dst: nat, len: nat, done: nat, x: Data)
    requires src + len <= |m| && dst + len <= |m| && Clear(src, dst, len) && done + |x| <= len
    ensures Window(Replace(m, dst + done, x), src + done + |x|, len - done - |x|)
         == Window(m, src + done, len - done)[|x|..]
  {
    var l := Window(Replace(m, dst + done, x), src + done + |x|, len - done - |x|);
    var w := Window(m, src + done, len - done);
    forall i | 0 <= i < |l| ensures l[i] == w[|x| + i] {
      assert l[i] == Replace(m, dst + done, x)[src + done + |x| + i];
    }
  }

  /** With more than one block, writing the first one spares the source still to be read, whatever
      is written, exactly when the destination is clear of it. */
  lemma ClearIff(src: nat, dst: nat, len: nat, bs: nat)
    requires 0 < bs < len
    ensures (forall m: Data, x: Data | src + len <= |m| && dst + len <= |m| && |x| == bs ::
               Window(Replace(m, dst, x), src + bs, len - bs) == Window(m, src + bs, len - bs))
            <==> Clear(src, dst, len)
  {
    if Clear(src, dst, len) {
      forall m: Data, x: Data | src + len <= |m| && dst + len <= |m| && |x| == bs
        ensures Window(Replace(m, dst, x), src + bs, len - bs) == Window(m, src + bs, len - bs)
      {
        RestIntact(m, src, dst, len, 0, x);
      }
    } else {
      var m, x := Repeat(0, src + dst + len), Repeat(1, bs);
      var p := if dst < src + bs then src + bs else dst;
      assert Window(Replace(m, dst, x), src + bs, len - bs)[p - src - bs] == 1;
      assert Window(m, src + bs, len - bs)[p - src - bs] == 0;
    }
  }

  /** Part way through encrypting: `d` bytes of `out` are in place, `k` blocks remain. */
  ghost predicate EncryptedTo(c: Cipher, m: Data, src: nat, dst: nat, len: nat, out: Data, last: Data,
                              now: Data, ctx: Data, d: nat, k: nat)
  {
    && Ok(c) && |ctx| == c.blocksize && d <= len == |out| && src + len <= |m| == |now| && dst + len <= |m|
    && Whole(c, Window(now, src + d, len - d), k)
    && now == Replace(m, dst, out[..d])
    && out[d..] == Encrypted(c, ctx, Window(now, src + d, len - d), k)
    && last == Chained(c, ctx, out[d..], k)
  }

  lemma EncryptNext(c: Cipher, m: Data, src: nat, dst: nat, len: nat, out: Data, last: Data, now: Data, ctx: Data, d: nat, k: nat)
    requires EncryptedTo(c, m, src, dst, len, out, last, now, ctx, d, k) && Clear(src, dst, len) && d < len
    ensures k > 0 && d + c.blocksize <= len
    ensures var x := c.enc(XorAll(ctx, Window(now, src + d, c.blocksize)));
            |x| == c.blocksize
            && EncryptedTo(c, m, src, dst, len, out, last, Replace(now, dst + d, x), x, d + c.blocksize, k - 1)
  {
    hide XorAll, Replace, Window, Encrypted, Chained;
    var bs, data := c.blocksize, Window(now, src + d, len - d);
    FirstBlock(c, now, src + d, data);
    EncryptFirst(c, ctx, data, k);
    var x := c.enc(XorAll(ctx, data[..bs]));
    RestIntact(now, src, dst, len, d, x);
    ReplaceAfter(m, dst, out[..d], x);
    Advance(out, d, x);
  }

  lemma Advance(out: Data, d: nat, x: Data)
    requires d + |x| <= |out| && out[d..][..|x|] == x
    ensures out[..d] + x == out[..d + |x|] && out[d..][|x|..] == out[d + |x|..]
  {
  }

  /** Encrypt `n` blocks from `src` to `dst`, in place or not, updating the context. */
  method CbcEncrypt(c: Cipher, mem: array<byte>, src: nat, dst: nat, len: nat, ctx: array<byte>, ghost n: nat)
    requires Ok(c) && ctx.Length == c.blocksize && ctx != mem && src + len <= mem.Length && dst + len <= mem.Length
    requires Clear(src, dst, len) && Whole(c, Window(mem[..], src, len), n)
    modifies mem, ctx
    ensures var out := Encrypted(c, old(ctx[..]), Window(old(mem[..]), src, len), n);
            mem[..] == Replace(old(mem[..]), dst, out) && ctx[..] == Chained(c, old(ctx[..]), out, n)
  {
    hide EncryptedTo, Encrypted, Chained, Replace, Window, Whole, XorAll;
    ghost var m, k := mem[..], n;
    ghost var out := Encrypted(c, ctx[..], Window(m, src, len), n);
    ghost var last := Chained(c, ctx[..], out, n);
    EncryptStart(c, m, src, dst, len, ctx[..], n);
    var d := 0;
    while d < len
      invariant ctx.Length == c.blocksize && EncryptedTo(c, m, src, dst, len, out, last, mem[..], ctx[..], d, k)
    {
      EncryptNext(c, m, src, dst, len, out, last, mem[..], ctx[..], d, k);
      EncryptBlock(c, mem, src + d, dst + d, ctx);
      d, k := d + c.blocksize, k - 1;
    }
    EncryptDone(c, m, src, dst, len, out, last, mem[..], ctx[..], d, k);
  }

  lemma EncryptStart(c: Cipher, m: Data, src: nat, dst: nat, len: nat, ctx: Data, n: nat)
    requires Ok(c) && |ctx| == c.blocksize && src + len <= |m| && dst + len <= |m| && Whole(c, Window(m, src, len), n)
    ensures var out := Encrypted(c, ctx, Window(m, src, len), n);
            EncryptedTo(c, m, src, dst, len, out, Chained(c, ctx, out, n), m, ctx, 0, n)
  {
    var out := Encrypted(c, ctx, Window(m, src, len), n);
    ReplaceNothing(m, dst);
    assert out[..0] == [] && out[0..] == out;
  }

  lemma EncryptDone(c: Cipher, m: Data, src: nat, dst: nat, len: nat, out: Data, last: Data, now: Data, ctx: Data, d: nat, k: nat)
    requires EncryptedTo(c, m, src, dst, len, out, last, now, ctx, d, k) && d >= len
    ensures now == Replace(m, dst, out) && ctx == last
  {
    NothingLeft(c, ctx, Window(now, src + d, len - d), k);
    assert out[..d] == out;
  }

  lemma NothingLeft(c: Cipher, ctx: Data, data: Data, k: nat)
    requires Ok(c) && |ctx| == c.blocksize && Whole(c, data, k) && data == []
    ensures Encrypted(c, ctx, data, k) == [] && Decrypted(c, ctx, data, k) == [] && Chained(c, ctx, data, k) == ctx
  {
  }

  lemma DecryptFirst(c: Cipher, iv: Data, data: Data, n: nat)
    requires Ok(c) && |iv| == c.blocksize && n > 0 && Whole(c, data, n)
    ensures var b := data[..c.blocksize];
            && Decrypted(c, iv, data, n) == XorAll(c.dec(b), iv) + Decrypted(c, b, data[c.blocksize..], n - 1)
            && Chained(c, iv, data, n) == Chained(c, b, data[c.blocksize..], n - 1)
  {
  }

  lemma ReplaceNothing(m: Data, at: nat)
    requires at <= |m|
    ensures Replace(m, at, []) == m
  {
  }

  lemma FirstBlock(c: Cipher, m: Data, at: nat, data: Data)
    requires at + |data| <= |m| && data == Window(m, at, |data|) && c.blocksize <= |data|
    ensures data[..c.blocksize] == Window(m, at, c.blocksize)
  {
  }

  ghost predicate DecryptedTo(c: Cipher, m: Data, src: nat, dst: nat, len: nat, out: Data, last: Data,
                              now: Data, ctx: Data, d: nat, k: nat)
  {
    && Ok(c) && |ctx| == c.blocksize && d <= len == |out| && src + len <= |m| == |now| && dst + len <= |m|
    && Whole(c, Window(now, src + d, len - d), k)
    && now == Replace(m, dst, out[..d])
    && out[d..] == Decrypted(c, ctx, Window(now, src + d, len - d), k)
    && last == Chained(c, ctx, Window(now, src + d, len - d), k)
  }

  lemma DecryptNext(c: Cipher, m: Data, src: nat, dst: nat, len: nat, out: Data, last: Data, now: Data, ctx: Data, d: nat, k: nat)
    requires DecryptedTo(c, m, src, dst, len, out, last, now, ctx, d, k) && Clear(src, dst, len) && d < len
    ensures k > 0 && d + c.blocksize <= len
    ensures var b := Window(now, src + d, c.blocksize);
            DecryptedTo(c, m, src, dst, len, out, last, Replace(now, dst + d, XorAll(c.dec(b), ctx)), b, d + c.blocksize, k - 1)
  {
    hide XorAll, Replace, Window, Decrypted, Chained;
    var bs, data := c.blocksize, Window(now, src + d, len - d);
    FirstBlock(c, now, src + d, data);
    DecryptFirst(c, ctx, data, k);
    var x := XorAll(c.dec(data[..bs]), ctx);
    RestIntact(now, src, dst, len, d, x);
    ReplaceAfter(m, dst, out[..d], x);
    Advance(out, d, x);
  }

  /** Decrypt `n` blocks from `src` to `dst`, in place or not, updating the context. */
  method CbcDecrypt(c: Cipher, mem: array<byte>, src: nat, dst: nat, len: nat, ctx: array<byte>, ghost n: nat)
    requires Ok(c) && ctx.Length == c.blocksize && ctx != mem && src + len <= mem.Length && dst + len <= mem.Length
    requires Clear(src, dst, len) && Whole(c, Window(mem[..], src, len), n)
    modifies mem, ctx
    ensures var data := Window(old(mem[..]), src, len);
            mem[..] == Replace(old(mem[..]), dst, Decrypted(c, old(ctx[..]), data, n))
            && ctx[..] == Chained(c, old(ctx[..]), data, n)
  {
    hide DecryptedTo, Decrypted, Chained, Replace, Window, Whole, XorAll;
    ghost var m, k := mem[..], n;
    ghost var out := Decrypted(c, ctx[..], Window(m, src, len), n);
    ghost var last := Chained(c, ctx[..], Window(m, src, len), n);
    DecryptStart(c, m, src, dst, len, ctx[..], n);
    var d := 0;
    while d < len
      invariant ctx.Length == c.blocksize && DecryptedTo(c, m, src, dst, len, out, last, mem[..], ctx[..], d, k)
    {
      DecryptNext(c, m, src, dst, len, out, last, mem[..], ctx[..], d, k);
      DecryptBlock(c, mem, src + d, dst + d, ctx);
      d, k := d + c.blocksize, k - 1;
    }
    DecryptDone(c, m, src, dst, len, out, last, mem[..], ctx[..], d, k);
  }

  lemma DecryptStart(c: Cipher, m: Data, src: nat, dst: nat, len: nat, ctx: Data, n: nat)
    requires Ok(c) && |ctx| == c.blocksize && src + len <= |m| && dst + len <= |m| && Whole(c, Window(m, src, len), n)
    ensures var out := Decrypted(c, ctx, Window(m, src, len), n);
            DecryptedTo(c, m, src, dst, len, out, Chained(c, ctx, Window(m, src, len), n), m, ctx, 0, n)
  {
    var out := Decrypted(c, ctx, Window(m, src, len), n);
    ReplaceNothing(m, dst);
    assert out[..0] == [] && out[0..] == out;
  }

  lemma DecryptDone(c: Cipher, m: Data, src: nat, dst: nat, len: nat, out: Data, last: Data, now: Data, ctx: Data, d: nat, k: nat)
    requires DecryptedTo(c, m, src, dst, len, out, last, now, ctx, d, k) && d >= len
    ensures now == Replace(m, dst, out) && ctx == last
  {
    NothingLeft(c, ctx, Window(now, src + d, len - d), k);
    assert out[..d] == out;
  }
}
