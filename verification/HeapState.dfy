/** Everything an allocator step reads or changes, as one value, and the steps themselves. */
module HeapState {
  import opened Bits
  import opened FreeList
  import opened HeapLayout
  import opened HeapPhase

  const NULL: int := 0
  /** Stand-in for the address of zero-length allocations. */
  const NOWHERE: int := -1

  /** The bytes `[p, p + n)` are all listed as free, and `p` lies at `offset` from a multiple of `m`. */
  ghost predicate Placement(f: seq<Block>, phys: int, p: int, n: nat, m: nat, offset: int)
    requires m > 0
  {
    (p + phys - offset) % m == 0 && forall a :: p <= a < p + n ==> Covers(f, a)
  }

  /** Distance from the start of a block to its first suitably aligned address. */
  function Skip(b: Block, phys: int, m: nat, offset: int): (pre: nat)
    requires m > 0
  {
    (offset - (b.start + phys)) % m
  }

  lemma SkipIsLeast(b: Block, phys: int, m: nat, offset: int, p: int)
    requires m > 0 && b.start <= p && (p + phys - offset) % m == 0
    ensures p >= b.start + Skip(b, phys, m, offset)
  {
    var d := p - b.start;
    var q := (p + phys - offset) / m;
    assert offset - (b.start + phys) == -q * m + d by {
      assert p + phys - offset == m * q;
      assert -q * m == -(m * q);
    }
    if d < m { DivUnique(offset - (b.start + phys), m, -q, d); }
  }

  lemma SkipSuits(b: Block, phys: int, m: nat, offset: int)
    requires m > 0
    ensures (b.start + Skip(b, phys, m, offset) + phys - offset) % m == 0
  {
    var x := offset - (b.start + phys);
    assert x % m - x == -(x / m) * m by { assert x == m * (x / m) + x % m; }
    DivUnique(x % m - x, m, -(x / m), 0);
  }

  /** Entry `i` is the first that fits, so its first aligned address is the least placement. */
  lemma FirstFitIsLowest(f: seq<Block>, i: nat, phys: int, n: nat, m: nat, offset: int, p: int)
    requires Canonical(f) && n > 0 && m > 0 && i <= |f|
    requires forall k :: 0 <= k < i ==> Skip(f[k], phys, m, offset) + n > f[k].size
    requires Placement(f, phys, p, n, m, offset)
    ensures i < |f| && p >= f[i].start
    ensures Skip(f[i], phys, m, offset) + n <= f[i].size ==> p >= f[i].start + Skip(f[i], phys, m, offset)
  {
    var k := RangeInOneBlock(f, p, n);
    SkipIsLeast(f[k], phys, m, offset, p);
  }

  /** Under any alignment `m` at least as strong as the cell size, the part of a cell-aligned block
      in front of its first aligned address is a whole number of cells but for the offset. */
  lemma SkipPhase(b: Block, phys: int, min: nat, m: nat, offset: int)
    requires min > 0 && m > 0 && m % min == 0 && Phase(b.start, phys, min) == 0
    ensures Skip(b, phys, m, offset) % min == offset % min
  {
    var x := offset - (b.start + phys);
    ModOfMultiple(x, min, m);
    var q, q' := (b.start + phys) / min, offset / min;
    assert x == (q' - q) * min + offset % min by { assert (q' - q) * min == q' * min - q * min; }
    DivUnique(x, min, q' - q, offset % min);
  }

  /** No bytes are leaked in front of an allocation from a cell-aligned block, wherever the block
      lies, exactly when the requested offset is a multiple of the cell size. */
  lemma HeadLeakIff(phys: int, min: nat, m: nat, offset: int)
    requires min > 0 && m > 0 && m % min == 0
    ensures (forall b: Block :: Phase(b.start, phys, min) == 0 ==> Drop(Block(b.start, Skip(b, phys, m, offset)), min) == {})
            <==> offset % min == 0
  {
    if offset % min == 0 {
      forall b: Block | Phase(b.start, phys, min) == 0 ensures Drop(Block(b.start, Skip(b, phys, m, offset)), min) == {} {
        SkipPhase(b, phys, min, m, offset);
        NoCellNoDrop(b.start, Skip(b, phys, m, offset), min);
      }
    } else {
      var r := offset % min;
      var b := Block(offset - phys - r, 1);
      MultipleAtLeast(m, min);
      DivUnique(offset - r, min, offset / min, 0);
      DivUnique(r, m, 0, r);
      assert Skip(b, phys, m, offset) == r;
      SpanSize(b.start, r);
    }
  }

  lemma NoCellNoDrop(a: int, n: nat, min: nat)
    requires min > 0 && n % min == 0
    ensures Drop(Block(a, n), min) == {}
  {
    if n > 0 { MultipleAtLeast(n, min); }
  }

  ghost predicate Touches(f: seq<Block>, p: int) {
    exists i :: 0 <= i < |f| && (f[i].start == p || f[i].End() == p)
  }

  /** Donating less than one minimum block leaves the list canonical only if it touches a free
      block; otherwise an empty block is listed. */
  lemma EmptyInsertCanonicalIff(f: seq<Block>, p: int)
    requires Canonical(f) && DisjointFrom(f, Block(p, 0))
    ensures Canonical(Insert(f, Block(p, 0))) <==> Touches(f, p)
  {
    if Touches(f, p) {
      var i :| 0 <= i < |f| && (f[i].start == p || f[i].End() == p);
      EmptyInsertTouching(f, p, i);
    } else {
      EmptyInsertApart(f, p);
    }
  }

  lemma {:induction false} EmptyInsertTouching(f: seq<Block>, p: int, i: nat)
    requires Canonical(f) && i < |f| && (f[i].start == p || f[i].End() == p)
    ensures Insert(f, Block(p, 0)) == f
    decreases |f|
  {
    if i == 0 {
      assert f == [f[0]] + f[1..];
      assert f[0] == Block(f[0].start, f[0].size + 0);
    } else {
      assert f[0].End() < p;
      EmptyInsertTouching(f[1..], p, i - 1);
      assert f == [f[0]] + f[1..];
    }
  }

  lemma {:induction false} EmptyInsertApart(f: seq<Block>, p: int)
    requires Canonical(f) && !Touches(f, p)
    ensures Block(p, 0) in Insert(f, Block(p, 0))
    decreases |f|
  {
    if f != [] {
      assert f[0].start != p && f[0].End() != p;
      if p > f[0].start {
        assert forall i :: 0 <= i < |f[1..]| ==> f[1..][i] == f[i + 1];
        EmptyInsertApart(f[1..], p);
      }
    }
  }

  /** `wordBits` is the width of `size_t`, `2^minLog` the minimum block size, `phys` the
      displacement of physical from virtual addresses and `header` the size of the length word
      in front of autosized blocks. */
  datatype Params = Params(wordBits: nat, minLog: nat, phys: int, header: nat) {

    ghost predicate Ok() { minLog + 2 <= wordBits && header > 0 }

    function Word(): (w: nat) ensures w > 0 { Pow2(wordBits) }

    function MinBlock(): (m: nat) ensures m > 0 { Pow2(minLog) }

    /** `( size + MIN - 1 ) & ~( MIN - 1 )` in `size_t` arithmetic. */
    function RoundUp(size: nat): nat
      requires minLog <= wordBits
    {
      Pow2Monotone(minLog, wordBits);
      And((size + MinBlock() - 1) % Word(), Word() - MinBlock())
    }

    /** `len & ~( MIN - 1 )`. */
    function RoundDown(len: nat): nat
      requires minLog <= wordBits
    {
      Pow2Monotone(minLog, wordBits);
      And(len % Word(), Word() - MinBlock())
    }

    /** A `size_t` read as `ssize_t`. */
    function Signed(x: int): int {
      if x % Word() < Word() / 2 then x % Word() else x % Word() - Word()
    }

    /** Rounding covers the request exactly when it does not wrap. */
    lemma RoundUpCoversIff(size: nat)
      requires minLog <= wordBits && 0 < size < Word()
      ensures RoundUp(size) >= size <==> size <= Word() - MinBlock()
      ensures size <= Word() - MinBlock() ==> size <= RoundUp(size) < size + MinBlock()
      ensures RoundUp(size) % MinBlock() == 0
    {
      var w, m := Word(), MinBlock();
      Pow2Monotone(minLog, wordBits);
      Pow2Divides(minLog, wordBits);
      var x := (size + m - 1) % w;
      AndNotMask(x, minLog, wordBits);
      hide And, Pow2;
      assert RoundUp(size) == x - x % m;
      RoundedUp(size, w, m);
    }

    static lemma RoundedUp(size: nat, w: nat, m: nat)
      requires 0 < size < w && 0 < m <= w && w % m == 0
      ensures var x := (size + m - 1) % w;
              var r := x - x % m;
              r % m == 0 && (r >= size <==> size <= w - m) && (size <= w - m ==> size <= r < size + m)
    {
      var x := (size + m - 1) % w;
      DivUnique(x - x % m, m, x / m, 0);
      if size > w - m {
        DivUnique(size + m - 1, w, 1, size + m - 1 - w);
      } else {
        DivUnique(size + m - 1, w, 0, size + m - 1);
      }
    }

    lemma RoundUpMonotone(size: nat, size': nat)
      requires minLog <= wordBits && 0 < size <= size' <= Word() - MinBlock()
      ensures RoundUp(size) <= RoundUp(size')
    {
      RoundUpCoversIff(size);
      RoundUpCoversIff(size');
      var r, r' := RoundUp(size), RoundUp(size');
      hide RoundUp;
      if r > r' { ModSub(r, r', MinBlock()); }
    }

    lemma RoundDownValue(len: nat)
      requires minLog <= wordBits && len < Word()
      ensures RoundDown(len) == len - len % MinBlock() && RoundDown(len) % MinBlock() == 0
      ensures RoundDown(len) == 0 <==> len < MinBlock()
      ensures RoundDown(len) <= Word() - MinBlock()
    {
      var w, m := Word(), MinBlock();
      Pow2Monotone(minLog, wordBits);
      Pow2Divides(minLog, wordBits);
      DivUnique(len, w, 0, len);
      AndNotMask(len, minLog, wordBits);
      MultipleBelow(len, m, w);
    }

    lemma RoundUpMultiple(size: nat)
      requires minLog <= wordBits && 0 < size <= Word() - MinBlock() && size % MinBlock() == 0
      ensures RoundUp(size) == size
    {
      RoundUpCoversIff(size);
      var d := RoundUp(size) - size;
      ModSub(RoundUp(size), size, MinBlock());
    }

    lemma SignedIsExact(x: int)
      requires -(Word() / 2) <= x < Word() / 2 && wordBits > 0
      ensures Signed(x) == x
    {
      var w := Word();
      assert w == 2 * Pow2(wordBits - 1);
      if x >= 0 { DivUnique(x, w, 0, x); } else { DivUnique(x, w, -1, x + w); }
    }

    /** The fit test of the search loop: the signed remainder is not negative. */
    predicate Accepts(size: nat, pre: nat, n: nat) { Signed(size - pre - n) >= 0 }

    /** The test is right for every block the free list may hold and every distance to an aligned
        address exactly when the request leaves the signed remainder in range. */
    lemma AcceptsIff(n: nat, m: nat)
      requires Ok() && n < Word() && 0 < m
      ensures (forall size: nat, pre: nat :: MinBlock() <= size < Word() / 2 && pre < m ==> (Accepts(size, pre, n) <==> pre + n <= size))
              <==> n + m - 1 - MinBlock() <= Word() / 2
    {
      HalfWord();
      var h, min := Word() / 2, MinBlock();
      if n + m - 1 - min <= h {
        forall size: nat, pre: nat | min <= size < h && pre < m ensures Accepts(size, pre, n) <==> pre + n <= size {
          SignedIsExact(size - pre - n);
        }
      } else {
        var size, pre := if n > h + min then n - h - 1 else min, if n > h + min then 0 else h + 1 + min - n;
        assert size - pre - n == -(h + 1);
        DivUnique(-(h + 1), Word(), -1, h - 1);
        assert Accepts(size, pre, n);
      }
    }

    lemma HalfWord()
      requires Ok()
      ensures Word() == 2 * (Word() / 2) && MinBlock() < Word() / 2
    {
      assert Word() == 2 * Pow2(wordBits - 1);
      Pow2Add(1, minLog);
      Pow2Monotone(minLog + 1, wordBits - 1);
    }

    /** A request for nearly the whole address space passes the test in a block of two cells. */
    lemma HugeRequestAccepted()
      requires minLog + 3 <= wordBits
      ensures Word() >= 8 * MinBlock() && Accepts(2 * MinBlock(), 0, Word() - MinBlock())
    {
      var w: int := Word();
      var min: int := MinBlock();
      Pow2Add(3, minLog);
      assert Pow2(3) == 8;
      Pow2Monotone(minLog + 3, wordBits);
      DivUnique(2 * min - (w - min), w, -1, 3 * min);
    }

    lemma RoundUpZero()
      requires minLog <= wordBits
      ensures RoundUp(0) == 0
    {
      var m := MinBlock();
      Pow2Monotone(minLog, wordBits);
      DivUnique(m - 1, Word(), 0, m - 1);
      DivUnique(m - 1, m, 0, m - 1);
      AndNotMask(m - 1, minLog, wordBits);
    }

    /** `( offset - virt_to_phys ( block ) ) & align_mask` is the distance to the first fit. */
    lemma PreSizeIsSkip(b: Block, k: nat, offset: nat)
      requires minLog <= k <= wordBits
      ensures And((offset - (b.start + phys)) % Word(), Pow2(k) - 1) == Skip(b, phys, Pow2(k), offset)
    {
      var x := offset - (b.start + phys);
      AndMask(x % Word(), k);
      Pow2Divides(k, wordBits);
      ModOfMultiple(x, Pow2(k), Word());
    }
  }

  /** `cache` lists the live blocks held only by cache discarders, in the order discarders give
      them up; `headers` the length words of autosized blocks; `mem` the initialised live bytes. */
  datatype Heap = Heap(h: Layout, freemem: int, cache: seq<Block>, headers: map<int, int>, mem: map<int, int>) {

    /** Free a live block. Its bytes no longer hold data: the list entry is written there. */
    function Free(b: Block): Heap {
      Heap(h.Free(b), freemem + b.size, cache, headers - {b.start}, map a | a in mem && !b.Has(a) :: mem[a])
    }

    /** Carve an allocation out of free-list entry `i`. */
    function Alloc(i: nat, pre: nat, n: nat, min: nat): Heap
      requires i < |h.free| && pre + n <= h.free[i].size
    {
      Heap(h.Alloc(i, pre, n, min), freemem - n, cache, headers, mem)
    }

    /** Donate a region. */
    function Populate(b: Block): Heap {
      Heap(h.Populate(b), freemem + b.size, cache, headers, mem)
    }

    /** Discard the first cached block. */
    function Discard(): Heap
      requires cache != []
    {
      this.(cache := cache[1..]).Free(cache[0])
    }

    /** Leave an owned block to a cache discarder, as the `at`-th to be given up. */
    function Entrust(b: Block, at: nat): Heap
      requires at <= |cache|
    {
      this.(cache := cache[..at] + [b] + cache[at..])
    }

    /** Write one byte of an owned block. */
    function Store(a: int, v: int): Heap { this.(mem := mem[a := v]) }

    /** Live and not at the mercy of a cache discarder. */
    ghost predicate Owned(b: Block) { b in h.live && b !in cache }
  }

  ghost predicate SizesOk(p: Params, live: seq<Block>) {
    forall b :: b in live ==> b.size % p.MinBlock() == 0
  }

  ghost predicate AccountsOk(p: Params, pool: seq<Block>, live: seq<Block>, freemem: int) {
    && freemem + Sum(live) == Sum(pool) < p.Word() / 2
    && forall r :: r in pool ==> NULL < r.start
  }

  ghost predicate CacheOk(cache: seq<Block>, live: seq<Block>) {
    && (forall b :: b in cache ==> b in live)
    && (forall i, j :: 0 <= i < j < |cache| ==> cache[i] != cache[j])
  }

  ghost predicate HeadersOk(p: Params, headers: map<int, int>, live: seq<Block>) {
    p.Ok() &&
    forall a :: a in headers ==> p.header < headers[a] < p.Word() / 2 && Block(a, p.RoundUp(headers[a])) in live
  }

  ghost predicate MemOk(mem: map<int, int>, live: seq<Block>) {
    forall a :: a in mem ==> Covers(live, a)
  }

  /** The global invariant of the allocator. */
  ghost predicate Inv(p: Params, s: Heap) {
    && p.Ok()
    && s.h.Sound(p.MinBlock())
    && SizesOk(p, s.h.live)
    && AccountsOk(p, s.h.pool, s.h.live, s.freemem)
    && CacheOk(s.cache, s.h.live)
    && HeadersOk(p, s.headers, s.h.live)
    && MemOk(s.mem, s.h.live)
  }

  lemma FreeKeepsInv(p: Params, s: Heap, b: Block)
    requires Inv(p, s) && s.Owned(b)
    ensures Inv(p, s.Free(b))
    ensures Phased(s.h, p.phys, p.MinBlock()) ==> Phased(s.Free(b).h, p.phys, p.MinBlock())
  {
    MultipleAtLeast(b.size, p.MinBlock());
    FreeKeepsSound(s.h, b, p.MinBlock());
    RemoveMembers(s.h.live, b);
    forall a ensures Covers(Remove(s.h.live, b), a) <==> Covers(s.h.live, a) && !b.Has(a) {
      RemoveCovers(s.h.live, b, a);
    }
    if Phased(s.h, p.phys, p.MinBlock()) { FreeKeepsPhased(s.h, b, p.phys, p.MinBlock()); }
  }

  lemma AllocKeepsInv(p: Params, s: Heap, i: nat, pre: nat, n: nat)
    requires Inv(p, s) && n > 0 && n % p.MinBlock() == 0
    requires i < |s.h.free| && pre + n <= s.h.free[i].size
    ensures Inv(p, s.Alloc(i, pre, n, p.MinBlock()))
  {
    hide Layout.Sound, Carve, Dropped;
    var b := Block(s.h.free[i].start + pre, n);
    AllocKeepsSound(s.h, i, pre, n, p.MinBlock());
    SumConcat(s.h.live, [b]);
    assert [b][1..] == [];
    forall a ensures Covers(s.h.live, a) ==> Covers(s.h.live + [b], a) { AppendCovers(s.h.live, b, a); }
  }

  lemma PopulateKeepsInv(p: Params, s: Heap, b: Block)
    requires Inv(p, s) && b.size > 0 && b.size % p.MinBlock() == 0 && NULL < b.start
    requires DisjointFrom(s.h.pool, b) && Sum(s.h.pool) + b.size < p.Word() / 2
    ensures Inv(p, s.Populate(b))
    ensures Phased(s.h, p.phys, p.MinBlock()) ==> Phased(s.Populate(b).h, p.phys, p.MinBlock())
  {
    MultipleAtLeast(b.size, p.MinBlock());
    PopulateKeepsSound(s.h, b, p.MinBlock());
    SumConcat(s.h.pool, [b]);
    assert [b][1..] == [];
    if Phased(s.h, p.phys, p.MinBlock()) { PopulateKeepsPhased(s.h, b, p.phys, p.MinBlock()); }
  }

  lemma DiscardKeepsInv(p: Params, s: Heap)
    requires Inv(p, s) && s.cache != []
    ensures Inv(p, s.Discard())
    ensures Phased(s.h, p.phys, p.MinBlock()) ==> Phased(s.Discard().h, p.phys, p.MinBlock())
  {
    FreeKeepsInv(p, s.(cache := s.cache[1..]), s.cache[0]);
  }

  /** `freemem` counts the listed bytes and the leaked ones. */
  lemma FreememMeaning(p: Params, s: Heap)
    requires Inv(p, s)
    ensures s.freemem == Sum(s.h.free) + |s.h.leaked|
    ensures s.freemem + Sum(s.h.live) == Sum(s.h.pool)
  {
    LayoutTotal(s.h, p.MinBlock());
  }

  /** Discard `k` cached blocks in turn. */
  function Discards(s: Heap, k: nat): Heap
    requires k <= |s.cache|
    decreases k
  {
    if k == 0 then s else Discards(s.Discard(), k - 1)
  }

  lemma {:induction false} DiscardsSnoc(s: Heap, k: nat)
    requires k < |s.cache|
    ensures Discards(s, k).cache == s.cache[k..]
    ensures Discards(s, k + 1) == Discards(s, k).Discard()
    decreases k
  {
    if k > 0 { DiscardsSnoc(s.Discard(), k - 1); }
  }

  lemma DiscardsSnocMaybe(s: Heap, k: nat)
    requires k <= |s.cache|
    ensures Discards(s, k).cache == s.cache[k..]
    ensures k < |s.cache| ==> Discards(s, k + 1) == Discards(s, k).Discard()
  {
    if k < |s.cache| {
      DiscardsSnoc(s, k);
    } else if k > 0 {
      DiscardsSnoc(s, k - 1);
    }
  }

  /** From `s` to `t` nothing but cached blocks was freed: every other allocation keeps its
      place, its length word and its contents. */
  ghost predicate Survives(s: Heap, t: Heap) {
    && t.h.pool == s.h.pool
    && t.h.leaked == s.h.leaked
    && (forall b :: b in t.h.live ==> b in s.h.live)
    && (forall b :: s.Owned(b) <==> t.Owned(b))
    && (forall a :: a in t.mem ==> a in s.mem && s.mem[a] == t.mem[a])
    && (forall b, a :: s.Owned(b) && b.Has(a) && a in s.mem ==> a in t.mem)
    && (forall b :: s.Owned(b) && b.start in s.headers ==> b.start in t.headers && t.headers[b.start] == s.headers[b.start])
  }

  lemma DiscardSurvives(p: Params, s: Heap)
    requires Inv(p, s) && s.cache != []
    ensures Survives(s, s.Discard())
  {
    var c := s.cache[0];
    var t := s.Discard();
    RemoveMembers(s.h.live, c);
    forall b | s.Owned(b) ensures t.Owned(b) && Disjoint(b, c) && b.start != c.start {
      RemoveDisjoint(s.h.live, c);
      assert b in Remove(s.h.live, c);
    }
    forall b | t.Owned(b) ensures s.Owned(b) {
      RemoveDisjoint(s.h.live, c);
      assert b != c by { assert Disjoint(c, c) ==> c.size == 0; }
    }
  }

  lemma {:induction false} DiscardsKeepInv(p: Params, s: Heap, k: nat)
    requires Inv(p, s) && k <= |s.cache|
    ensures Inv(p, Discards(s, k))
    decreases k
  {
    hide Inv, Phased, Layout.Free;
    if k > 0 {
      DiscardKeepsInv(p, s);
      DiscardsKeepInv(p, s.Discard(), k - 1);
    }
  }

  lemma {:induction false} DiscardsSurvive(p: Params, s: Heap, k: nat)
    requires Inv(p, s) && k <= |s.cache|
    ensures Survives(s, Discards(s, k))
    decreases k
  {
    hide Inv, Phased, Layout.Free, Survives;
    if k == 0 {
      SurvivesItself(s);
    } else {
      var t := s.Discard();
      DiscardKeepsInv(p, s);
      DiscardsSurvive(p, t, k - 1);
      DiscardSurvives(p, s);
      SurvivesTransitive(s, t, Discards(t, k - 1));
    }
  }

  lemma SurvivesItself(s: Heap)
    ensures Survives(s, s)
  {
  }

  lemma SurvivesTransitive(s: Heap, t: Heap, u: Heap)
    requires Survives(s, t) && Survives(t, u)
    ensures Survives(s, u)
  {
  }

  /** An allocation that was the caller's keeps its place, its length word and its contents. */
  ghost predicate Undisturbed(s: Heap, t: Heap, b: Block) {
    && t.Owned(b)
    && (forall a :: b.Has(a) ==> (a in s.mem <==> a in t.mem) && (a in s.mem ==> s.mem[a] == t.mem[a]))
    && (b.start in s.headers ==> b.start in t.headers && t.headers[b.start] == s.headers[b.start])
  }

  lemma UndisturbedOwned(s: Heap, t: Heap, b: Block)
    requires Undisturbed(s, t, b)
    ensures t.Owned(b)
  {
  }

  lemma UndisturbedTwice(s: Heap, t: Heap, u: Heap, b: Block)
    requires Undisturbed(s, t, b) && Undisturbed(t, u, b)
    ensures Undisturbed(s, u, b)
  {
  }

  /** Owned allocations other than `except` are undisturbed. */
  ghost predicate OthersKept(s: Heap, t: Heap, except: Block) {
    forall b :: s.Owned(b) && b != except ==> Undisturbed(s, t, b)
  }

  lemma OwnedDisjoint(p: Params, s: Heap, b: Block, c: Block)
    requires Inv(p, s) && b in s.h.live && c in s.h.live && b != c
    ensures Disjoint(b, c) && b.start != c.start
  {
    RemoveDisjoint(s.h.live, c);
    RemoveMembers(s.h.live, c);
  }

  lemma FreeDisturbsNoOther(p: Params, s: Heap, c: Block)
    requires Inv(p, s) && s.Owned(c)
    ensures OthersKept(s, s.Free(c), c) && c !in s.Free(c).h.live
    ensures forall b :: b in s.Free(c).h.live ==> b in s.h.live
  {
    var t := s.Free(c);
    RemoveMembers(s.h.live, c);
    RemoveDisjoint(s.h.live, c);
    assert Disjoint(c, c) ==> c.size == 0;
    forall b | s.Owned(b) && b != c ensures Undisturbed(s, t, b) { OwnedDisjoint(p, s, b, c); }
  }

  /** From `s` to `t` the caller lost exactly the block `c`. */
  ghost predicate Lost(s: Heap, t: Heap, c: Block) {
    OthersKept(s, t, c) && forall b :: t.Owned(b) ==> s.Owned(b) && b != c
  }

  lemma FreeLoses(p: Params, s: Heap, c: Block)
    requires Inv(p, s) && s.Owned(c)
    ensures Lost(s, s.Free(c), c)
  {
    FreeDisturbsNoOther(p, s, c);
  }

  lemma EntrustKeeps(p: Params, s: Heap, c: Block, at: nat)
    requires Inv(p, s) && s.Owned(c) && at <= |s.cache|
    ensures Inv(p, s.Entrust(c, at)) && Lost(s, s.Entrust(c, at), c)
  {
    var t := s.Entrust(c, at);
    forall b ensures b in t.cache <==> b in s.cache || b == c {
      assert s.cache == s.cache[..at] + s.cache[at..];
      assert c in [c];
    }
  }

  lemma StoreKeeps(p: Params, s: Heap, c: Block, a: int, v: int)
    requires Inv(p, s) && s.Owned(c) && c.Has(a)
    ensures Inv(p, s.Store(a, v)) && OthersKept(s, s.Store(a, v), c)
  {
    MemberCovers(s.h.live, a);
    forall b | s.Owned(b) && b != c ensures Undisturbed(s, s.Store(a, v), b) { OwnedDisjoint(p, s, b, c); }
  }

  lemma DiscardsDisturbNoOther(p: Params, s: Heap, k: nat, x: Block)
    requires Inv(p, s) && k <= |s.cache|
    ensures OthersKept(s, Discards(s, k), x)
    ensures OnlyDiscarded(s, Discards(s, k))
  {
    hide Inv, Discards;
    DiscardsSurvive(p, s, k);
  }

  lemma AllocIsNew(p: Params, s: Heap, i: nat, pre: nat, n: nat)
    requires Inv(p, s) && n > 0 && i < |s.h.free| && pre + n <= s.h.free[i].size
    ensures var b := Block(s.h.free[i].start + pre, n);
            var t := s.Alloc(i, pre, n, p.MinBlock());
            && t.Owned(b) && b !in s.h.live && OthersKept(s, t, b)
            && (forall c :: c in s.h.live ==> Disjoint(b, c))
            && (forall a :: b.Has(a) ==> a !in s.mem)
  {
    var b := Block(s.h.free[i].start + pre, n);
    assert forall a :: b.Has(a) ==> s.h.free[i].Has(a);
    assert b.Has(b.start);
    forall c | c in s.h.live ensures Disjoint(b, c) {
      LiveDisjointFromFree(s.h, p.MinBlock(), c);
      assert Disjoint(s.h.free[i], c);
    }
    forall a | b.Has(a) ensures a !in s.mem { assert Covers(s.h.free, a); }
  }

  /** Write the length word of an autosized block. */
  function SetHeader(s: Heap, a: int, size: int): Heap {
    s.(headers := s.headers[a := size])
  }

  lemma SetHeaderKeeps(p: Params, s: Heap, b: Block, size: nat)
    requires Inv(p, s) && s.Owned(b) && p.header < size < p.Word() / 2 && b.size == p.RoundUp(size)
    ensures Inv(p, SetHeader(s, b.start, size)) && OthersKept(s, SetHeader(s, b.start, size), b)
  {
    var t := SetHeader(s, b.start, size);
    forall c | s.Owned(c) && c != b ensures Undisturbed(s, t, c) { OwnedDisjoint(p, s, b, c); }
  }

  /** `memcpy` between live ranges: uninitialised bytes stay uninitialised. */
  function Copy(mem: map<int, int>, dst: int, src: int, n: nat): map<int, int> {
    map a | a in mem.Keys + Span(dst, n) && (if dst <= a < dst + n then src + (a - dst) in mem else a in mem)
      :: if dst <= a < dst + n then mem[src + (a - dst)] else mem[a]
  }

  lemma CopyKeeps(p: Params, s: Heap, b: Block, dst: int, src: int, n: nat)
    requires Inv(p, s) && s.Owned(b) && b.start <= dst && dst + n <= b.End()
    ensures var t := s.(mem := Copy(s.mem, dst, src, n)); Inv(p, t) && OthersKept(s, t, b)
  {
    var t := s.(mem := Copy(s.mem, dst, src, n));
    forall a | a in t.mem ensures Covers(s.h.live, a) {
      if dst <= a < dst + n { MemberCovers(s.h.live, a); assert b.Has(a); }
    }
    forall c | s.Owned(c) && c != b ensures Undisturbed(s, t, c) { OwnedDisjoint(p, s, b, c); }
  }

  /** `b` is a new, uninitialised allocation apart from everything the caller owned before. */
  ghost predicate NewBlock(s: Heap, t: Heap, b: Block) {
    && t.Owned(b)
    && (forall c :: s.Owned(c) ==> Undisturbed(s, t, c) && Disjoint(b, c))
    && (forall c :: c in t.h.live ==> c in s.h.live || c == b)
    && (forall c :: t.Owned(c) ==> s.Owned(c) || c == b)
    && (forall a :: b.Has(a) ==> a !in t.mem)
  }

  /** Nothing changed for the caller: at most cached blocks were discarded. */
  ghost predicate OnlyDiscarded(s: Heap, t: Heap) {
    && (forall b :: s.Owned(b) ==> Undisturbed(s, t, b))
    && (forall b :: b in t.h.live ==> b in s.h.live)
    && (forall b :: t.Owned(b) ==> s.Owned(b))
  }

  /** An allocation after discards is new to the caller. */
  lemma NewAfterDiscards(s: Heap, u: Heap, t: Heap, b: Block)
    requires OnlyDiscarded(s, u) && t.Owned(b) && OthersKept(u, t, b)
    requires forall c :: c in u.h.live ==> Disjoint(b, c) && c != b
    requires forall c :: c in t.h.live ==> c in u.h.live || c == b
    requires t.cache == u.cache && forall a :: b.Has(a) ==> a !in t.mem
    ensures NewBlock(s, t, b)
  {
    forall c | s.Owned(c) ensures Undisturbed(s, t, c) && Disjoint(b, c) {
      assert Undisturbed(s, u, c) && Undisturbed(u, t, c);
    }
  }

  /** The block behind an autosized pointer. */
  function AutosizedBlock(p: Params, ptr: int, size: nat): Block
    requires p.minLog <= p.wordBits
  {
    Block(ptr - p.header, p.RoundUp(size + p.header))
  }

  ghost predicate AutosizedIn(p: Params, s: Heap, ptr: int, size: nat)
    requires p.Ok()
  {
    && ptr - p.header in s.headers
    && s.headers[ptr - p.header] == size + p.header
    && s.Owned(AutosizedBlock(p, ptr, size))
  }

  lemma LiveSmall(p: Params, s: Heap, b: Block)
    requires Inv(p, s) && b in s.h.live
    ensures b.size < p.Word() / 2
  {
    SumMember(s.h.live, b);
    LayoutTotal(s.h, p.MinBlock());
  }

  lemma HeaderSummary(p: Params, s: Heap, t: Heap, ptr: int, size: nat)
    requires Inv(p, s) && Inv(p, t) && 0 < size && size + p.header <= p.RoundUp(size + p.header)
    requires NewBlock(s, t, AutosizedBlock(p, ptr, size))
    ensures var u := SetHeader(t, ptr - p.header, size + p.header);
            Inv(p, u) && AutosizedIn(p, u, ptr, size) && NewBlock(s, u, AutosizedBlock(p, ptr, size))
  {
    assert p.Ok();
    hide Inv, Params.RoundUp, Undisturbed;
    var b := AutosizedBlock(p, ptr, size);
    var u := SetHeader(t, ptr - p.header, size + p.header);
    LiveSmall(p, t, b);
    SetHeaderKeeps(p, t, b, size + p.header);
    forall c | s.Owned(c) ensures c != b && Undisturbed(s, u, c) {
      assert Disjoint(b, c);
      UndisturbedOwned(s, t, c);
      UndisturbedTwice(s, t, u, c);
    }
  }

  ghost predicate SameContents(before: map<int, int>, src: int, after: map<int, int>, dst: int, n: int) {
    forall a :: src <= a < src + n && a in before ==> dst + (a - src) in after && after[dst + (a - src)] == before[a]
  }

  /** The data of the autosized block at `src` is now at `dst`, its block is free, and nothing
      else has changed for the caller. */
  ghost predicate Moved(p: Params, s: Heap, t: Heap, src: int, m: nat, dst: int, n: nat)
    requires p.Ok()
  {
    && AutosizedBlock(p, src, m) !in t.h.live
    && t.cache == s.cache
    && (forall b :: b in t.h.live ==> b in s.h.live)
    && SameContents(s.mem, src, t.mem, dst, Min(m, n))
    && (n > 0 ==> AutosizedIn(p, t, dst, n))
    && (forall b :: s.Owned(b) && b != AutosizedBlock(p, src, m) && (n == 0 || b != AutosizedBlock(p, dst, n)) ==>
          Undisturbed(s, t, b))
  }

  /** The end of `realloc`: copy up to the smaller size, then free the old block. */
  function Released(p: Params, s: Heap, src: int, m: nat, dst: int, n: nat): Heap
    requires p.minLog <= p.wordBits
  {
    s.(mem := Copy(s.mem, dst, src, Min(m, n))).Free(AutosizedBlock(p, src, m))
  }

  lemma AutosizedRoom(p: Params, s: Heap, ptr: int, n: nat)
    requires Inv(p, s) && AutosizedIn(p, s, ptr, n)
    ensures p.header + n <= AutosizedBlock(p, ptr, n).size
  {
    Pow2Add(1, p.wordBits - 1);
    Pow2Monotone(p.minLog, p.wordBits - 1);
    p.RoundUpCoversIff(n + p.header);
  }

  /** Copying into another autosized block keeps both blocks. */
  lemma CopySummary(p: Params, s: Heap, src: int, m: nat, dst: int, n: nat)
    requires Inv(p, s) && AutosizedIn(p, s, src, m) && AutosizedIn(p, s, dst, n) && dst != src
    ensures var t := s.(mem := Copy(s.mem, dst, src, Min(m, n)));
            Inv(p, t) && OthersKept(s, t, AutosizedBlock(p, dst, n)) && SameContents(s.mem, src, t.mem, dst, Min(m, n))
  {
    assert p.Ok();
    hide Inv, OthersKept, Params.RoundUp, Copy, SameContents;
    AutosizedRoom(p, s, dst, n);
    CopyKeeps(p, s, AutosizedBlock(p, dst, n), dst, src, Min(m, n));
    CopyCopies(s.mem, dst, src, Min(m, n));
  }

  lemma CopyAt(mem: map<int, int>, dst: int, src: int, n: nat, x: int)
    requires dst <= x < dst + n && src + (x - dst) in mem
    ensures x in Copy(mem, dst, src, n) && Copy(mem, dst, src, n)[x] == mem[src + (x - dst)]
  {
    assert x in Span(dst, n);
  }

  lemma CopyCopies(mem: map<int, int>, dst: int, src: int, n: nat)
    ensures SameContents(mem, src, Copy(mem, dst, src, n), dst, n)
  {
    hide Copy;
    forall a | src <= a < src + n && a in mem
      ensures dst + (a - src) in Copy(mem, dst, src, n) && Copy(mem, dst, src, n)[dst + (a - src)] == mem[a]
    {
      CopyAt(mem, dst, src, n, dst + (a - src));
    }
  }

  lemma FreeKeepsCopy(s: Heap, t: Heap, src: int, dst: int, n: int, b: Block, c: Block)
    requires SameContents(s.mem, src, t.mem, dst, n) && Disjoint(b, c) && c.start <= dst && dst + n <= c.End()
    ensures SameContents(s.mem, src, t.Free(b).mem, dst, n)
  {
    forall a | src <= a < src + n && a in s.mem
      ensures dst + (a - src) in t.Free(b).mem && t.Free(b).mem[dst + (a - src)] == s.mem[a]
    {
      assert c.Has(dst + (a - src));
    }
  }

  lemma OthersKeptTwice(s: Heap, t: Heap, u: Heap, x: Block, y: Block)
    requires OthersKept(s, t, x) && OthersKept(t, u, y)
    ensures forall b :: s.Owned(b) && b != x && b != y ==> Undisturbed(s, u, b)
  {
    forall b | s.Owned(b) && b != x && b != y ensures Undisturbed(s, u, b) {
      assert Undisturbed(s, t, b) && Undisturbed(t, u, b);
    }
  }

  /** `realloc` to a non-zero size: copy across, then free the old block. */
  lemma ReallocSummary(p: Params, s: Heap, src: int, m: nat, dst: int, n: nat)
    requires Inv(p, s) && AutosizedIn(p, s, src, m) && n > 0 && AutosizedIn(p, s, dst, n) && dst != src
    ensures var t := s.(mem := Copy(s.mem, dst, src, Min(m, n)));
            Inv(p, t) && t.Owned(AutosizedBlock(p, src, m)) && Moved(p, s, t.Free(AutosizedBlock(p, src, m)), src, m, dst, n)
  {
    var t := s.(mem := Copy(s.mem, dst, src, Min(m, n)));
    var b, c := AutosizedBlock(p, src, m), AutosizedBlock(p, dst, n);
    var u := t.Free(b);
    CopySummary(p, s, src, m, dst, n);
    assert Disjoint(b, c) && b.start != c.start by { OwnedDisjoint(p, s, b, c); }
    FreeDisturbsNoOther(p, t, b);
    OthersKeptTwice(s, t, u, c, b);
    assert SameContents(s.mem, src, u.mem, dst, Min(m, n)) by {
      AutosizedRoom(p, s, dst, n);
      FreeKeepsCopy(s, t, src, dst, Min(m, n), b, c);
    }
    assert AutosizedIn(p, u, dst, n) by { assert Undisturbed(t, u, c); }
  }

  /** `realloc` to size zero: just free the old block. */
  lemma FreeSummary(p: Params, s: Heap, src: int, m: nat, dst: int)
    requires Inv(p, s) && AutosizedIn(p, s, src, m)
    ensures s.(mem := Copy(s.mem, dst, src, 0)) == s
    ensures Moved(p, s, s.Free(AutosizedBlock(p, src, m)), src, m, dst, 0)
  {
    assert Copy(s.mem, dst, src, 0) == s.mem;
    FreeDisturbsNoOther(p, s, AutosizedBlock(p, src, m));
  }

  lemma LiveAboveNull(p: Params, s: Heap, b: Block)
    requires Inv(p, s) && b in s.h.live
    ensures NULL < b.start
  {
    MemberCovers(s.h.live, b.start);
    MemberCovers(s.h.pool, b.start);
  }

  lemma ReleaseSummary(p: Params, s: Heap, t: Heap, u: Heap, src: int, m: nat, dst: int, n: nat)
    requires Inv(p, s) && AutosizedIn(p, s, src, m) && (n > 0 ==> AutosizedIn(p, s, dst, n) && dst != src)
    requires t == s.(mem := Copy(s.mem, dst, src, Min(m, n))) && u == t.Free(AutosizedBlock(p, src, m))
    ensures Inv(p, t) && t.Owned(AutosizedBlock(p, src, m)) && Moved(p, s, u, src, m, dst, n)
    ensures NULL < src - p.header
  {
    LiveAboveNull(p, s, AutosizedBlock(p, src, m));
    if n > 0 {
      ReallocSummary(p, s, src, m, dst, n);
    } else {
      FreeSummary(p, s, src, m, dst);
    }
  }

  /** The outcome of a successful `realloc`: the new block is apart from every block the caller
      owned, holds the old data up to the smaller size, and the old block (if any) is free. */
  ghost predicate Reallocated(p: Params, s: Heap, u: Heap, hasOld: bool, src: int, m: nat, dst: int, n: nat)
    requires p.Ok()
  {
    && (n > 0 ==> AutosizedIn(p, u, dst, n) && forall b :: s.Owned(b) ==> Disjoint(AutosizedBlock(p, dst, n), b))
    && (forall b :: b in u.h.live ==> b in s.h.live || (n > 0 && b == AutosizedBlock(p, dst, n)))
    && (forall b :: u.Owned(b) ==> s.Owned(b) || (n > 0 && b == AutosizedBlock(p, dst, n)))
    && (hasOld ==> AutosizedBlock(p, src, m) !in u.h.live && SameContents(s.mem, src, u.mem, dst, Min(m, n)))
    && (forall b :: s.Owned(b) && !(hasOld && b == AutosizedBlock(p, src, m)) ==> Undisturbed(s, u, b))
  }

  lemma ReallocatedSummary(p: Params, s: Heap, t: Heap, u: Heap, hasOld: bool, src: int, m: nat, dst: int, n: nat)
    requires Inv(p, s) && Inv(p, t)
    requires n == 0 ==> t == s
    requires n > 0 ==> AutosizedIn(p, t, dst, n) && NewBlock(s, t, AutosizedBlock(p, dst, n))
    requires hasOld ==> AutosizedIn(p, s, src, m) && Moved(p, t, u, src, m, dst, n)
    requires !hasOld ==> u == t
    ensures Reallocated(p, s, u, hasOld, src, m, dst, n)
  {
    assert p.Ok();
    hide Inv, Params.RoundUp;
    forall b | s.Owned(b) && n > 0 ensures Undisturbed(s, t, b) && b != AutosizedBlock(p, dst, n) {
      assert Disjoint(AutosizedBlock(p, dst, n), b);
    }
    if hasOld {
      ContentsCarried(p, s, t, u, src, m, dst, n);
      hide SameContents;
      forall b | s.Owned(b) && b != AutosizedBlock(p, src, m) ensures Undisturbed(s, u, b) {
        if n > 0 { assert Undisturbed(s, t, b) && Undisturbed(t, u, b); }
      }
    }
  }

  lemma ContentsCarried(p: Params, s: Heap, t: Heap, u: Heap, src: int, m: nat, dst: int, n: nat)
    requires Inv(p, s) && Inv(p, t) && (n == 0 ==> t == s)
    requires n > 0 ==> AutosizedIn(p, t, dst, n) && NewBlock(s, t, AutosizedBlock(p, dst, n))
    requires AutosizedIn(p, s, src, m) && Moved(p, t, u, src, m, dst, n)
    ensures SameContents(s.mem, src, u.mem, dst, Min(m, n))
  {
    assert p.Ok();
    hide Inv, Params.RoundUp, SameContents, Undisturbed;
    AutosizedRoom(p, s, src, m);
    if n > 0 {
      var b := AutosizedBlock(p, src, m);
      assert Undisturbed(s, t, b);
      ContentsFollow(s, t, u.mem, b, src, dst, Min(m, n));
    }
  }

  lemma ContentsFollow(s: Heap, t: Heap, after: map<int, int>, b: Block, src: int, dst: int, n: int)
    requires Undisturbed(s, t, b) && b.start <= src && src + n <= b.End() && SameContents(t.mem, src, after, dst, n)
    ensures SameContents(s.mem, src, after, dst, n)
  {
    forall a | src <= a < src + n && a in s.mem ensures dst + (a - src) in after && after[dst + (a - src)] == s.mem[a] {
      assert b.Has(a);
    }
  }

  /** The old block is still there after the new one was allocated, and is a different one. */
  lemma StillAutosized(p: Params, s: Heap, t: Heap, src: int, m: nat, dst: int, n: nat)
    requires Inv(p, s) && Inv(p, t) && AutosizedIn(p, s, src, m)
    requires n == 0 ==> t == s
    requires n > 0 ==> NewBlock(s, t, AutosizedBlock(p, dst, n))
    ensures AutosizedIn(p, t, src, m) && (n > 0 ==> dst != src)
  {
    if n > 0 {
      var b, c := AutosizedBlock(p, src, m), AutosizedBlock(p, dst, n);
      assert Undisturbed(s, t, b) && Disjoint(c, b);
      assert b.size > 0 && c.size > 0;
    }
  }
}
