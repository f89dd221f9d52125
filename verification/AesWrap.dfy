/** AES key wrap (RFC 3394), on one memory in which source and destination may overlap.
    The block cipher is a parameter. */
module AesWrap {
  import Bits
  import opened Bytes
  import opened Memory

  type Data = seq<byte>
  type Register = s: Data | |s| == 8 witness seq(8, _ => 0)
  type Block = s: Data | |s| == 16 witness seq(16, _ => 0)

  const IV_BYTE: byte := 0xA6

  function IV(): (iv: Register)
    ensures forall i :: 0 <= i < 8 ==> iv[i] == IV_BYTE
  {
    seq(8, _ => IV_BYTE)
  }

  /** The register `A` and the blocks `R` of the standard. */
  datatype Keys = Keys(a: Register, r: seq<Register>)

  ghost predicate Inverts(dec: Block -> Block, enc: Block -> Block) { forall b: Block :: dec(enc(b)) == b }

  /** Flip the last byte of a register by the low byte of the step number. */
  function Tagged(a: Register, t: nat): (r: Register) {
    a[7 := Xor(a[7], t % 256)]
  }

  lemma TaggedTwice(a: Register, t: nat)
    ensures Tagged(Tagged(a, t), t) == a
  {
    XorTwice(a[7], t % 256);
  }

  /** One step: what it does with block `i` (from 1) as step number `t`. */
  type Step = (Keys, nat, nat) -> Keys

  /** Encrypt the register with block `i`, then flip the register by the step number. */
  function WrapStep(enc: Block -> Block, s: Keys, i: nat, t: nat): (out: Keys)
    ensures |out.r| == |s.r|
  {
    if 0 < i <= |s.r| then
      var b := enc(s.a + s.r[i - 1]);
      Keys(Tagged(b[..8], t), s.r[i - 1 := b[8..]])
    else s
  }

  function UnwrapStep(dec: Block -> Block, s: Keys, i: nat, t: nat): (out: Keys)
    ensures |out.r| == |s.r|
  {
    if 0 < i <= |s.r| then
      var b := dec(Tagged(s.a, t) + s.r[i - 1]);
      Keys(b[..8], s.r[i - 1 := b[8..]])
    else s
  }

  function Wrapping(enc: Block -> Block): Step { (s, i: nat, t: nat) => WrapStep(enc, s, i, t) }

  function Unwrapping(dec: Block -> Block): Step { (s, i: nat, t: nat) => UnwrapStep(dec, s, i, t) }

  /** Blocks 1 to `i` of a pass that starts after `base` steps. */
  function Pass(f: Step, s: Keys, base: nat, i: nat): (out: Keys) {
    if i == 0 then s else f(Pass(f, s, base, i - 1), i, base + i)
  }

  /** Blocks `i` down to 1. */
  function PassBack(f: Step, s: Keys, base: nat, i: nat): (out: Keys)
    decreases i
  {
    if i == 0 then s else PassBack(f, f(s, i, base + i), base, i - 1)
  }

  /** How many steps come before pass `j`. */
  function Base(n: nat, j: nat): nat {
    if j == 0 then 0 else Base(n, j - 1) + n
  }

  lemma {:induction false} BaseIsProduct(n: nat, j: nat)
    ensures Base(n, j) == n * j
  {
    if j > 0 { BaseIsProduct(n, j - 1); }
  }

  /** Passes 0 to `j - 1` over `n` blocks. */
  function Passes(f: Step, s: Keys, n: nat, j: nat): (out: Keys) {
    if j == 0 then s else Pass(f, Passes(f, s, n, j - 1), Base(n, j - 1), n)
  }

  /** Passes `j - 1` down to 0. */
  function PassesBack(f: Step, s: Keys, n: nat, j: nat): (out: Keys)
    decreases j
  {
    if j == 0 then s else PassesBack(f, PassBack(f, s, Base(n, j - 1), n), n, j - 1)
  }

  ghost predicate Keeps(f: Step) { forall s, i, t :: |f(s, i, t).r| == |s.r| }

  ghost predicate Undoes(g: Step, f: Step) { forall s, i, t :: g(f(s, i, t), i, t) == s }

  lemma {:induction false} PassKeeps(f: Step, s: Keys, base: nat, i: nat)
    requires Keeps(f)
    ensures |Pass(f, s, base, i).r| == |s.r|
  {
    if i > 0 { PassKeeps(f, s, base, i - 1); }
  }

  lemma {:induction false} PassBackKeeps(f: Step, s: Keys, base: nat, i: nat)
    requires Keeps(f)
    ensures |PassBack(f, s, base, i).r| == |s.r|
    decreases i
  {
    if i > 0 { PassBackKeeps(f, f(s, i, base + i), base, i - 1); }
  }

  lemma {:induction false} PassesKeep(f: Step, s: Keys, n: nat, j: nat)
    requires Keeps(f)
    ensures |Passes(f, s, n, j).r| == |s.r|
  {
    if j > 0 {
      PassesKeep(f, s, n, j - 1);
      PassKeeps(f, Passes(f, s, n, j - 1), Base(n, j - 1), n);
    }
  }

  lemma {:induction false} PassesBackKeep(f: Step, s: Keys, n: nat, j: nat)
    requires Keeps(f)
    ensures |PassesBack(f, s, n, j).r| == |s.r|
    decreases j
  {
    if j > 0 {
      PassBackKeeps(f, s, Base(n, j - 1), n);
      PassesBackKeep(f, PassBack(f, s, Base(n, j - 1), n), n, j - 1);
    }
  }

  lemma {:induction false} PassInverse(f: Step, g: Step, s: Keys, base: nat, i: nat)
    requires Undoes(g, f)
    ensures PassBack(g, Pass(f, s, base, i), base, i) == s
  {
    if i > 0 { PassInverse(f, g, s, base, i - 1); }
  }

  /** If each step can be undone, so can all passes. */
  lemma {:induction false} PassesInverse(f: Step, g: Step, s: Keys, n: nat, j: nat)
    requires Undoes(g, f)
    ensures PassesBack(g, Passes(f, s, n, j), n, j) == s
  {
    if j > 0 {
      PassInverse(f, g, Passes(f, s, n, j - 1), Base(n, j - 1), n);
      PassesInverse(f, g, s, n, j - 1);
    }
  }

  lemma StepInverse(enc: Block -> Block, dec: Block -> Block, s: Keys, i: nat, t: nat)
    requires Inverts(dec, enc)
    ensures UnwrapStep(dec, WrapStep(enc, s, i, t), i, t) == s
  {
    if 0 < i <= |s.r| {
      var p: Block := s.a + s.r[i - 1];
      var b := enc(p);
      TaggedTwice(b[..8], t);
      assert b[..8] + b[8..] == b;
      assert p[..8] == s.a && p[8..] == s.r[i - 1];
    }
  }

  lemma UnwrappingUndoes(enc: Block -> Block, dec: Block -> Block)
    requires Inverts(dec, enc)
    ensures Undoes(Unwrapping(dec), Wrapping(enc))
  {
    forall s, i, t ensures Unwrapping(dec)(Wrapping(enc)(s, i, t), i, t) == s {
      StepInverse(enc, dec, s, i, t);
    }
  }

  // ----- Section 2.2.1 of RFC 3394 -----

  /** `t` without its `k` lowest bytes. */
  function Shifted(t: nat, k: nat): (r: nat)
    ensures t == 0 ==> r == 0
  {
    if k == 0 then t else Shifted(t / 256, k - 1)
  }

  /** The whole register is combined with the step number as a 64-bit quantity. */
  function RfcTagged(a: Register, t: nat): (r: Register) {
    seq<byte>(8, k requires 0 <= k < 8 => Xor(a[k], Shifted(t, 7 - k) % 256))
  }

  function RfcStep(enc: Block -> Block, s: Keys, i: nat, t: nat): (out: Keys)
    ensures |out.r| == |s.r|
  {
    if 0 < i <= |s.r| then
      var b := enc(s.a + s.r[i - 1]);
      Keys(RfcTagged(b[..8], t), s.r[i - 1 := b[8..]])
    else s
  }

  function RfcWrapping(enc: Block -> Block): Step { (s, i: nat, t: nat) => RfcStep(enc, s, i, t) }

  lemma {:induction false} ShiftedStep(t: nat, k: nat)
    ensures Shifted(t, k + 1) == Shifted(t, k) / 256
  {
    if k > 0 { ShiftedStep(t / 256, k - 1); }
  }

  /** Unless the number fits a byte, some higher byte is not zero. */
  lemma {:induction false} HighByte(t: nat, k: nat) returns (j: nat)
    requires 0 < k < 8 && Shifted(t, k) != 0 && Shifted(t, 8) == 0
    ensures k <= j < 8 && Shifted(t, j) % 256 != 0
    decreases 8 - k
  {
    if Shifted(t, k) % 256 != 0 {
      j := k;
    } else {
      ShiftedStep(t, k);
      j := HighByte(t, k + 1);
    }
  }

  lemma RfcTaggedAt(a: Register, t: nat, k: nat)
    requires k < 8
    ensures RfcTagged(a, t)[k] == a[k] <==> Shifted(t, 7 - k) % 256 == 0
  {
    XorZero(a[k], Shifted(t, 7 - k) % 256);
  }

  lemma SmallShift(t: nat, k: nat)
    requires t < 256 && k > 0
    ensures Shifted(t, k) == 0
  {
    assert Shifted(t, k) == Shifted(t / 256, k - 1);
  }

  lemma TagSmall(a: Register, t: nat)
    requires t < 256
    ensures Tagged(a, t) == RfcTagged(a, t)
  {
    forall k | 0 <= k < 7 ensures RfcTagged(a, t)[k] == a[k] {
      SmallShift(t, 7 - k);
      RfcTaggedAt(a, t, k);
    }
    assert Shifted(t, 0) == t;
  }

  /** One step agrees with the standard exactly when its number fits a byte. */
  lemma TagIff(a: Register, t: nat)
    requires Shifted(t, 8) == 0
    ensures Tagged(a, t) == RfcTagged(a, t) <==> t < 256
  {
    if t < 256 {
      TagSmall(a, t);
    } else {
      assert Shifted(t, 1) == Shifted(t / 256, 0);
      var j := HighByte(t, 1);
      RfcTaggedAt(a, t, 7 - j);
      assert Tagged(a, t)[7 - j] == a[7 - j];
    }
  }

  ghost predicate AgreeTo(f: Step, g: Step, limit: nat) { forall s, i, t: nat :: t <= limit ==> f(s, i, t) == g(s, i, t) }

  lemma {:induction false} PassAgrees(f: Step, g: Step, limit: nat, s: Keys, base: nat, i: nat)
    requires AgreeTo(f, g, limit) && base + i <= limit
    ensures Pass(f, s, base, i) == Pass(g, s, base, i)
  {
    if i > 0 { PassAgrees(f, g, limit, s, base, i - 1); }
  }

  lemma {:induction false} PassesAgree(f: Step, g: Step, limit: nat, s: Keys, n: nat, j: nat)
    requires AgreeTo(f, g, limit) && Base(n, j) <= limit
    ensures Passes(f, s, n, j) == Passes(g, s, n, j)
  {
    if j > 0 {
      PassesAgree(f, g, limit, s, n, j - 1);
      PassAgrees(f, g, limit, Passes(f, s, n, j - 1), Base(n, j - 1), n);
    }
  }

  /** With at most 42 blocks, wrapping is exactly the standard's. */
  lemma MatchesRfc(enc: Block -> Block, s: Keys, n: nat)
    requires 6 * n <= 255
    ensures Passes(Wrapping(enc), s, n, 6) == Passes(RfcWrapping(enc), s, n, 6)
  {
    forall s, i: nat, t: nat | t <= 255 ensures Wrapping(enc)(s, i, t) == RfcWrapping(enc)(s, i, t) {
      if 0 < i <= |s.r| { TagSmall(enc(s.a + s.r[i - 1])[..8], t); }
    }
    BaseIsProduct(n, 6);
    PassesAgree(Wrapping(enc), RfcWrapping(enc), 255, s, n, 6);
  }

  // ----- Where the wrapping differs -----

  function Identity(b: Block): Block { b }

  /** A byte after combining it with byte `j` of each of the step numbers 1 to `t`. */
  function Fold(b: byte, t: nat, j: nat): byte {
    if t == 0 then b else Xor(Fold(b, t - 1, j), Shifted(t, j) % 256)
  }

  lemma OddShift(t: nat, j: nat)
    requires j > 0 && t % 2 == 1
    ensures Shifted(t, j) == Shifted(t - 1, j)
  {
    Bits.ModOfMultiple(t, 2, 256);
    Bits.DivUnique(t - 1, 256, t / 256, t % 256 - 1);
  }

  /** Above the lowest byte the step numbers cancel in pairs: only the last one is left, and that
      only after an even number of steps. */
  lemma {:induction false} FoldPairs(b: byte, t: nat, j: nat)
    requires j > 0
    ensures Fold(b, t, j) == if t % 2 == 0 then Xor(b, Shifted(t, j) % 256) else b
  {
    hide Xor, Shifted;
    if t == 0 {
      XorZero(b, 0);
    } else {
      FoldPairs(b, t - 1, j);
      if t % 2 == 1 {
        OddShift(t, j);
        XorTwice(b, Shifted(t, j) % 256);
      }
    }
  }

  /** With a cipher that changes nothing, the standard's register collects the step numbers. */
  lemma {:induction false} RfcPassCollects(s: Keys, b: Register, base: nat, i: nat, k: nat)
    requires i <= |s.r| && k < 8 && s.a[k] == Fold(b[k], base, 7 - k)
    ensures var out := Pass(RfcWrapping(Identity), s, base, i);
            out.r == s.r && out.a[k] == Fold(b[k], base + i, 7 - k)
  {
    hide Xor, Shifted;
    if i > 0 {
      RfcPassCollects(s, b, base, i - 1, k);
      var p := Pass(RfcWrapping(Identity), s, base, i - 1);
      var x: Block := p.a + p.r[i - 1];
      assert x[..8] == p.a && x[8..] == p.r[i - 1];
    }
  }

  lemma {:induction false} RfcPassesCollect(s: Keys, j: nat, k: nat)
    requires k < 8
    ensures var out := Passes(RfcWrapping(Identity), s, |s.r|, j);
            out.r == s.r && out.a[k] == Fold(s.a[k], Base(|s.r|, j), 7 - k)
  {
    hide Pass;
    if j > 0 {
      RfcPassesCollect(s, j - 1, k);
      RfcPassCollects(Passes(RfcWrapping(Identity), s, |s.r|, j - 1), s.a, Base(|s.r|, j - 1), |s.r|, k);
    }
  }

  /** The code's register keeps its upper bytes. */
  lemma {:induction false} PassKeepsUpper(s: Keys, base: nat, i: nat, k: nat)
    requires i <= |s.r| && k < 7
    ensures var out := Pass(Wrapping(Identity), s, base, i);
            out.r == s.r && out.a[k] == s.a[k]
  {
    hide Xor;
    if i > 0 {
      PassKeepsUpper(s, base, i - 1, k);
      var p := Pass(Wrapping(Identity), s, base, i - 1);
      var x: Block := p.a + p.r[i - 1];
      assert x[..8] == p.a && x[8..] == p.r[i - 1];
    }
  }

  lemma {:induction false} PassesKeepUpper(s: Keys, j: nat, k: nat)
    requires k < 7
    ensures var out := Passes(Wrapping(Identity), s, |s.r|, j);
            out.r == s.r && out.a[k] == s.a[k]
  {
    hide Pass;
    if j > 0 {
      PassesKeepUpper(s, j - 1, k);
      PassKeepsUpper(Passes(Wrapping(Identity), s, |s.r|, j - 1), Base(|s.r|, j - 1), |s.r|, k);
    }
  }

  lemma FirstShift(t: nat)
    ensures Shifted(t, 1) == t / 256
  {
    assert Shifted(t / 256, 0) == t / 256;
  }

  /** From 43 blocks on, the wrapping of every key differs from the standard for some cipher. */
  lemma DiffersFromRfc(s: Keys)
    requires 6 * |s.r| > 255 && Shifted(6 * |s.r|, 8) == 0
    ensures Passes(Wrapping(Identity), s, |s.r|, 6) != Passes(RfcWrapping(Identity), s, |s.r|, 6)
  {
    hide Passes, Xor, Shifted, Base, Fold;
    var t := 6 * |s.r|;
    BaseIsProduct(|s.r|, 6);
    FirstShift(t);
    var j := HighByte(t, 1);
    var k := 7 - j;
    RfcPassesCollect(s, 6, k);
    PassesKeepUpper(s, 6, k);
    FoldPairs(s.a[k], t, j);
    XorZero(s.a[k], Shifted(t, j) % 256);
  }

  ghost predicate SameAsRfc(n: nat) {
    forall enc: Block -> Block, s: Keys | |s.r| == n :: Passes(Wrapping(enc), s, n, 6) == Passes(RfcWrapping(enc), s, n, 6)
  }

  /** The wrapping is the standard's, for every cipher and every key of `n` blocks, exactly while
      the step numbers fit a byte. */
  lemma MatchesRfcIff(n: nat)
    requires Shifted(6 * n, 8) == 0
    ensures SameAsRfc(n) <==> 6 * n <= 255
  {
    hide Passes;
    if 6 * n <= 255 {
      forall enc: Block -> Block, s: Keys | |s.r| == n
        ensures Passes(Wrapping(enc), s, n, 6) == Passes(RfcWrapping(enc), s, n, 6)
      {
        MatchesRfc(enc, s, n);
      }
    } else {
      var s := Keys(IV(), seq(n, _ => IV()));
      DiffersFromRfc(s);
      assert Passes(Wrapping(Identity), s, n, 6) != Passes(RfcWrapping(Identity), s, n, 6);
    }
  }

  // ----- In memory -----

  function Concat(r: seq<Register>): (d: Data)
    ensures |d| == 8 * |r|
  {
    if r == [] then [] else Concat(r[..|r| - 1]) + r[|r| - 1]
  }

  function Blocks(d: Data, n: nat): (r: seq<Register>)
    requires |d| == 8 * n
    ensures |r| == n && Concat(r) == d
  {
    if n == 0 then [] else
      var r := Blocks(d[..8 * n - 8], n - 1) + [d[8 * n - 8..]];
      assert r[..n - 1] == Blocks(d[..8 * n - 8], n - 1);
      assert d == d[..8 * n - 8] + d[8 * n - 8..];
      r
  }

  function Flat(s: Keys): (d: Data)
    ensures |d| == 8 * |s.r| + 8
  {
    s.a + Concat(s.r)
  }

  lemma {:induction false} ConcatInjective(r: seq<Register>, r': seq<Register>)
    requires |r| == |r'| && Concat(r) == Concat(r')
    ensures r == r'
  {
    if r != [] {
      var n := |r| - 1;
      var d := Concat(r);
      assert d[..8 * n] == Concat(r[..n]) && d[..8 * n] == Concat(r'[..n]);
      assert d[8 * n..] == r[n] && d[8 * n..] == r'[n];
      ConcatInjective(r[..n], r'[..n]);
      assert r == r[..n] + [r[n]] && r' == r'[..n] + [r'[n]];
    }
  }

  lemma {:induction false} ConcatAt(r: seq<Register>, i: nat, x: Register)
    requires i < |r|
    ensures Window(Concat(r), 8 * i, 8) == r[i]
    ensures Concat(r[i := x]) == Replace(Concat(r), 8 * i, x)
  {
    var n := |r| - 1;
    var c := Concat(r[..n]);
    if i == n {
      assert r[i := x][..n] == r[..n];
    } else {
      ConcatAt(r[..n], i, x);
      assert r[i := x][..n] == r[..n][i := x];
      assert Window(c + r[n], 8 * i, 8) == Window(c, 8 * i, 8);
      assert Replace(c, 8 * i, x) + r[n] == Replace(c + r[n], 8 * i, x);
    }
  }

  /** Where a block lies behind the register, and what writing both does. */
  lemma FlatAt(s: Keys, i: nat, a: Register, x: Register)
    requires 0 < i <= |s.r|
    ensures Window(Flat(s), 0, 8) == s.a && Window(Flat(s), 8 * i, 8) == s.r[i - 1]
    ensures Replace(Replace(Flat(s), 0, a), 8 * i, x) == Flat(Keys(a, s.r[i - 1 := x]))
  {
    hide Window, Replace, Concat;
    var c := Concat(s.r);
    ConcatAt(s.r, i - 1, x);
    WindowBehind(s.a, c, 8 * (i - 1), 8);
    ReplaceFront(s.a, a, c);
    ReplaceBehind(a, c, 8 * (i - 1), x);
  }

  lemma WrapKeeps(enc: Block -> Block, s: Keys, n: nat)
    ensures |Passes(Wrapping(enc), s, n, 6).r| == |s.r|
    ensures |PassesBack(Unwrapping(enc), s, n, 6).r| == |s.r|
  {
    PassesKeep(Wrapping(enc), s, n, 6);
    PassesBackKeep(Unwrapping(enc), s, n, 6);
  }

  /** The wrapping of some data. */
  function Wrap(enc: Block -> Block, data: Data, n: nat): (out: Data)
    requires |data| == 8 * n
    ensures |out| == 8 * n + 8
  {
    WrapKeeps(enc, Keys(IV(), Blocks(data, n)), n);
    Flat(Passes(Wrapping(enc), Keys(IV(), Blocks(data, n)), n, 6))
  }

  function Unwrap(dec: Block -> Block, data: Data, n: nat): (out: Keys)
    requires |data| == 8 * n + 8
    ensures |out.r| == n
  {
    WrapKeeps(dec, Keys(data[..8], Blocks(data[8..], n)), n);
    PassesBack(Unwrapping(dec), Keys(data[..8], Blocks(data[8..], n)), n, 6)
  }

  /** Unwrapping what was wrapped gives the initial value and the data. */
  lemma WrapInverse(enc: Block -> Block, dec: Block -> Block, data: Data, n: nat)
    requires Inverts(dec, enc) && |data| == 8 * n
    ensures Unwrap(dec, Wrap(enc, data, n), n) == Keys(IV(), Blocks(data, n))
  {
    var s := Keys(IV(), Blocks(data, n));
    var w := Passes(Wrapping(enc), s, n, 6);
    WrapKeeps(enc, s, n);
    assert Flat(w)[..8] == w.a && Flat(w)[8..] == Concat(w.r);
    ConcatInjective(Blocks(Flat(w)[8..], n), w.r);
    UnwrappingUndoes(enc, dec);
    PassesInverse(Wrapping(enc), Unwrapping(dec), s, n, 6);
  }

  lemma WrapInjective(enc: Block -> Block, dec: Block -> Block, data: Data, data': Data, n: nat)
    requires Inverts(dec, enc) && |data| == |data'| == 8 * n && Wrap(enc, data, n) == Wrap(enc, data', n)
    ensures data == data'
  {
    WrapInverse(enc, dec, data, n);
    WrapInverse(enc, dec, data', n);
    assert Concat(Blocks(data, n)) == data && Concat(Blocks(data', n)) == data';
  }

  /** Fill a block from two halves. */
  method TwoHalves(a: Register, r: Register) returns (b: array<byte>)
    ensures fresh(b) && b.Length == 16 && b[..] == a + r
  {
    b := new byte[16];
    CopyIn(b, 0, a);
    CopyIn(b, 8, r);
  }

  /** Reading the register and a block of a buffer that lies at `at`. */
  lemma ReadAt(m: Data, at: nat, s: Keys, i: nat)
    requires 0 < i <= |s.r| && at + (8 * |s.r| + 8) <= |m|
    ensures var mem := Replace(m, at, Flat(s));
            Window(mem, at, 8) == s.a && Window(mem, at + 8 * i, 8) == s.r[i - 1]
  {
    InsideReplaced(m, at, Flat(s), 0, s.a);
    InsideReplaced(m, at, Flat(s), 8 * i, s.a);
    FlatAt(s, i, s.a, s.a);
  }

  /** Writing them. */
  lemma WriteAt(m: Data, at: nat, s: Keys, i: nat, a: Register, x: Register)
    requires 0 < i <= |s.r| && at + (8 * |s.r| + 8) <= |m|
    ensures Replace(Replace(Replace(m, at, Flat(s)), at, a), at + 8 * i, x)
         == Replace(m, at, Flat(Keys(a, s.r[i - 1 := x])))
  {
    InsideReplaced(m, at, Flat(s), 0, a);
    InsideReplaced(m, at, Replace(Flat(s), 0, a), 8 * i, x);
    FlatAt(s, i, a, x);
  }

  /** One wrapping step on the buffer at `dest`. */
  method WrapOne(enc: Block -> Block, mem: array<byte>, dest: nat, i: nat, t: nat, ghost m: Data, ghost s: Keys)
    requires 0 < i <= |s.r| && dest + (8 * |s.r| + 8) <= |m| && mem[..] == Replace(m, dest, Flat(s))
    modifies mem
    ensures mem[..] == Replace(m, dest, Flat(WrapStep(enc, s, i, t)))
  {
    var r := dest + 8 * i;
    ReadAt(m, dest, s, i);
    assert mem[dest..dest + 8] == Window(mem[..], dest, 8) && mem[r..r + 8] == Window(mem[..], r, 8);
    var b := TwoHalves(mem[dest..dest + 8], mem[r..r + 8]);
    assert b[..] == s.a + s.r[i - 1];
    var c := enc(b[..]);
    CopyIn(mem, dest, Tagged(c[..8], t));
    CopyIn(mem, r, c[8..]);
    WriteAt(m, dest, s, i, Tagged(c[..8], t), c[8..]);
    assert WrapStep(enc, s, i, t) == Keys(Tagged(c[..8], t), s.r[i - 1 := c[8..]]);
  }

  /** One pass over the blocks. */
  method WrapRow(enc: Block -> Block, mem: array<byte>, dest: nat, n: nat, base: nat, ghost m: Data, ghost s: Keys)
    requires n == |s.r| && dest + (8 * n + 8) <= |m| && mem[..] == Replace(m, dest, Flat(s))
    modifies mem
    ensures |Pass(Wrapping(enc), s, base, n).r| == n
    ensures mem[..] == Replace(m, dest, Flat(Pass(Wrapping(enc), s, base, n)))
  {
    hide WrapStep, Flat, Replace;
    ghost var now := s;
    var i := 1;
    while i <= n
      invariant 1 <= i <= n + 1 && now == Pass(Wrapping(enc), s, base, i - 1)
      invariant |now.r| == n && mem[..] == Replace(m, dest, Flat(now))
    {
      WrapOne(enc, mem, dest, i, base + i, m, now);
      now := WrapStep(enc, now, i, base + i);
      i := i + 1;
    }
  }

  method WrapRows(enc: Block -> Block, mem: array<byte>, dest: nat, n: nat, ghost m: Data, ghost s: Keys)
    requires n == |s.r| && dest + (8 * n + 8) <= |m| && mem[..] == Replace(m, dest, Flat(s))
    modifies mem
    ensures |Passes(Wrapping(enc), s, n, 6).r| == n
    ensures mem[..] == Replace(m, dest, Flat(Passes(Wrapping(enc), s, n, 6)))
  {
    ghost var now := s;
    for j := 0 to 6
      invariant now == Passes(Wrapping(enc), s, n, j)
      invariant |now.r| == n && mem[..] == Replace(m, dest, Flat(now))
    {
      WrapRow(enc, mem, dest, n, Base(n, j), m, now);
      now := Pass(Wrapping(enc), now, Base(n, j), n);
    }
  }

  /** Wrap `n` blocks; `fits` says whether the key schedule could be allocated. */
  method AesWrap(enc: Block -> Block, mem: array<byte>, src: nat, dest: nat, n: nat, fits: bool) returns (rc: int)
    requires src + 8 * n <= mem.Length && dest + (8 * n + 8) <= mem.Length
    modifies mem
    ensures rc == if fits then 0 else -1
    ensures !fits ==> mem[..] == old(mem[..])
    ensures fits ==> mem[..] == Replace(old(mem[..]), dest, Wrap(enc, Clobbered(old(mem[..]), src, dest, n), n))
  {
    if !fits { return -1; }
    ghost var m := mem[..];
    CopyIn(mem, dest, IV());
    ghost var m1 := mem[..];
    Memmove(mem, dest + 8, src, 8 * n);
    SetUp(m, m1, mem[..], src, dest, n);
    WrapRows(enc, mem, dest, n, m, Keys(IV(), Blocks(Clobbered(m, src, dest, n), n)));
    rc := 0;
  }

  /** The data as it is copied: the initial value has already been written over part of it if the
      destination overlaps it. */
  ghost function Clobbered(m: Data, src: nat, dest: nat, n: nat): (d: Data)
    requires src + 8 * n <= |m|
    ensures |d| == 8 * n
  {
    seq<byte>(8 * n, k requires 0 <= k < 8 * n => if dest <= src + k < dest + 8 then IV_BYTE else m[src + k])
  }

  lemma SetUp(m: Data, m1: Data, m2: Data, src: nat, dest: nat, n: nat)
    requires src + 8 * n <= |m| && dest + (8 * n + 8) <= |m| && m1 == Replace(m, dest, IV())
    requires |m2| == |m| && m2[dest + 8..dest + 8 + 8 * n] == m1[src..src + 8 * n]
    requires m2[..dest + 8] == m1[..dest + 8] && m2[dest + 8 + 8 * n..] == m1[dest + 8 + 8 * n..]
    ensures m2 == Replace(m, dest, Flat(Keys(IV(), Blocks(Clobbered(m, src, dest, n), n))))
  {
    var c := Clobbered(m, src, dest, n);
    assert m1[src..src + 8 * n] == c;
    assert m2 == m2[..dest + 8] + m2[dest + 8..dest + 8 + 8 * n] + m2[dest + 8 + 8 * n..];
    assert m2 == Replace(m, dest, IV() + c);
  }

  /** Wrapping gives the wrapped data exactly when no byte of it is changed by writing the initial
      value first; so in particular when that value lands outside the data. */
  lemma WrapCorrectIff(enc: Block -> Block, dec: Block -> Block, m: Data, src: nat, dest: nat, n: nat)
    requires Inverts(dec, enc) && src + 8 * n <= |m|
    ensures Wrap(enc, Clobbered(m, src, dest, n), n) == Wrap(enc, Window(m, src, 8 * n), n) <==>
            forall k :: src <= k < src + 8 * n && dest <= k < dest + 8 ==> m[k] == IV_BYTE
  {
    var d, c := Window(m, src, 8 * n), Clobbered(m, src, dest, n);
    if Wrap(enc, c, n) == Wrap(enc, d, n) {
      WrapInjective(enc, dec, c, d, n);
      forall k | src <= k < src + 8 * n && dest <= k < dest + 8 ensures m[k] == IV_BYTE {
        assert c[k - src] == d[k - src];
      }
    }
    if forall k :: src <= k < src + 8 * n && dest <= k < dest + 8 ==> m[k] == IV_BYTE {
      assert forall k :: 0 <= k < 8 * n ==> c[k] == m[src + k];
      assert c == d;
    }
  }

  /** The register is kept apart, and the blocks lie at `dest`. */
  ghost predicate HoldsAt(a: array<byte>, mem: array<byte>, dest: nat, m: Data, s: Keys)
    reads a, mem
  {
    dest + 8 * |s.r| <= |m| && a[..] == s.a && mem[..] == Replace(m, dest, Concat(s.r))
  }

  lemma BlockAt(m: Data, at: nat, r: seq<Register>, i: nat, x: Register)
    requires 0 < i <= |r| && at + 8 * |r| <= |m|
    ensures var mem, o := Replace(m, at, Concat(r)), at + 8 * (i - 1);
            Window(mem, o, 8) == r[i - 1] && Replace(mem, o, x) == Replace(m, at, Concat(r[i - 1 := x]))
  {
    ConcatAt(r, i - 1, x);
    InsideReplaced(m, at, Concat(r), 8 * (i - 1), x);
  }

  lemma InsideReplaced(m: Data, at: nat, c: Data, o: nat, x: Register)
    requires at + |c| <= |m| && o + 8 <= |c|
    ensures var mem := Replace(m, at, c);
            Window(mem, at + o, 8) == Window(c, o, 8) && Replace(mem, at + o, x) == Replace(m, at, Replace(c, o, x))
  {
    var mem := Replace(m, at, c);
    WindowOfReplace(m, at, c);
    InnerWindow(mem, at, |c|, o, 8);
    InnerReplace(mem, at, |c|, o, x);
    ReplaceTwice(m, at, c, Replace(c, o, x));
  }

  method UnwrapOne(dec: Block -> Block, a: array<byte>, mem: array<byte>, dest: nat, i: nat, t: nat, ghost m: Data, ghost s: Keys)
    requires 0 < i <= |s.r| && a != mem && HoldsAt(a, mem, dest, m, s)
    modifies a, mem
    ensures HoldsAt(a, mem, dest, m, UnwrapStep(dec, s, i, t))
  {
    var r := dest + 8 * (i - 1);
    BlockAt(m, dest, s.r, i, s.a);
    assert mem[r..r + 8] == Window(mem[..], r, 8) && |a[..]| == 8;
    var b := TwoHalves(a[..], mem[r..r + 8]);
    b[7] := Xor(b[7], t % 256);
    assert b[..] == Tagged(s.a, t) + s.r[i - 1];
    var c := dec(b[..]);
    CopyIn(a, 0, c[..8]);
    CopyIn(mem, r, c[8..]);
    BlockAt(m, dest, s.r, i, c[8..]);
    assert a[..] == c[..8];
  }

  /** One pass backwards over the blocks. */
  method UnwrapRow(dec: Block -> Block, a: array<byte>, mem: array<byte>, dest: nat, n: nat, base: nat, ghost m: Data, ghost s: Keys)
    requires n == |s.r| && a != mem && HoldsAt(a, mem, dest, m, s)
    modifies a, mem
    ensures |PassBack(Unwrapping(dec), s, base, n).r| == n
    ensures HoldsAt(a, mem, dest, m, PassBack(Unwrapping(dec), s, base, n))
  {
    hide UnwrapStep, HoldsAt;
    ghost var now := s;
    var i := n;
    while i >= 1
      invariant 0 <= i <= n && |now.r| == n && HoldsAt(a, mem, dest, m, now)
      invariant PassBack(Unwrapping(dec), now, base, i) == PassBack(Unwrapping(dec), s, base, n)
    {
      UnwrapOne(dec, a, mem, dest, i, base + i, m, now);
      now := UnwrapStep(dec, now, i, base + i);
      i := i - 1;
    }
  }

  method UnwrapRows(dec: Block -> Block, a: array<byte>, mem: array<byte>, dest: nat, n: nat, ghost m: Data, ghost s: Keys)
    requires n == |s.r| && a != mem && HoldsAt(a, mem, dest, m, s)
    modifies a, mem
    ensures HoldsAt(a, mem, dest, m, PassesBack(Unwrapping(dec), s, n, 6))
  {
    hide PassBack, HoldsAt;
    ghost var now := s;
    for j := 6 downto 0
      invariant |now.r| == n && HoldsAt(a, mem, dest, m, now)
      invariant PassesBack(Unwrapping(dec), now, n, j) == PassesBack(Unwrapping(dec), s, n, 6)
    {
      UnwrapRow(dec, a, mem, dest, n, Base(n, j), m, now);
      now := PassBack(Unwrapping(dec), now, Base(n, j), n);
    }
  }

  /** Unwrap `n` blocks: the status says whether the initial value was found. */
  method AesUnwrap(dec: Block -> Block, mem: array<byte>, src: nat, dest: nat, n: nat, fits: bool) returns (rc: int)
    requires src + (8 * n + 8) <= mem.Length && dest + 8 * n <= mem.Length
    modifies mem
    ensures !fits ==> rc == -1 && mem[..] == old(mem[..])
    ensures fits ==> var s := Unwrap(dec, Window(old(mem[..]), src, 8 * n + 8), n);
                     mem[..] == Replace(old(mem[..]), dest, Concat(s.r)) && rc == (if s.a == IV() then 0 else -1)
  {
    hide Replace, Concat, Blocks, PassesBack, Window;
    if !fits { return -1; }
    ghost var m := mem[..];
    ghost var d := Window(m, src, 8 * n + 8);
    var a := new byte[8];
    CopyIn(a, 0, mem[src..src + 8]);
    Memmove(mem, dest, src + 8, 8 * n);
    Moved(m, mem[..], src, dest, n);
    UnwrapRows(dec, a, mem, dest, n, m, Keys(d[..8], Blocks(d[8..], n)));
    rc := CheckIV(a);
  }

  lemma Moved(m: Data, m1: Data, src: nat, dest: nat, n: nat)
    requires src + (8 * n + 8) <= |m| && dest + 8 * n <= |m| == |m1|
    requires m1[dest..dest + 8 * n] == m[src + 8..src + 8 + 8 * n]
    requires m1[..dest] == m[..dest] && m1[dest + 8 * n..] == m[dest + 8 * n..]
    ensures m1 == Replace(m, dest, Window(m, src, 8 * n + 8)[8..])
    ensures m[src..src + 8] == Window(m, src, 8 * n + 8)[..8]
  {
    assert m1 == m1[..dest] + m1[dest..dest + 8 * n] + m1[dest + 8 * n..];
    assert Window(m, src, 8 * n + 8)[8..] == m[src + 8..src + 8 + 8 * n];
  }

  method CheckIV(a: array<byte>) returns (rc: int)
    requires a.Length == 8
    ensures rc == if a[..] == IV() then 0 else -1
  {
    for i := 0 to 8
      invariant forall k :: 0 <= k < i ==> a[k] == IV_BYTE
    {
      if a[i] != IV_BYTE {
        assert a[..][i] != IV()[i];
        return -1;
      }
    }
    assert a[..] == IV();
    rc := 0;
  }

  /** Wrapping, then unwrapping what was wrapped (in place or not), succeeds and gives the data. */
  method WrapThenUnwrap(enc: Block -> Block, dec: Block -> Block, mem: array<byte>, src: nat, mid: nat, dest: nat, n: nat)
    returns (rc: int)
    requires Inverts(dec, enc)
    requires src + 8 * n <= mem.Length && mid + (8 * n + 8) <= mem.Length && dest + 8 * n <= mem.Length
    requires mid + 8 <= src || src + 8 * n <= mid
    modifies mem
    ensures rc == 0 && Window(mem[..], dest, 8 * n) == Window(old(mem[..]), src, 8 * n)
  {
    ghost var m := mem[..];
    ghost var data := Window(m, src, 8 * n);
    WrapCorrectIff(enc, dec, m, src, mid, n);
    rc := AesWrap(enc, mem, src, mid, n, true);
    ghost var m1 := mem[..];
    WindowOfReplace(m, mid, Wrap(enc, data, n));
    WrapInverse(enc, dec, data, n);
    rc := AesUnwrap(dec, mem, mid, dest, n, true);
    WindowOfReplace(m1, dest, data);
  }
}
