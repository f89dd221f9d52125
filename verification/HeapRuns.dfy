/** Whole runs of the allocator: undoing an allocation, and arbitrary request sequences. */
module HeapRuns {
  import opened Bits
  import opened FreeList
  import opened HeapLayout
  import opened HeapPhase
  import opened HeapState
  import opened Malloc

  lemma {:induction false} RemoveLast(f: seq<Block>, b: Block)
    requires b !in f
    ensures Remove(f + [b], b) == f
  {
    if f != [] {
      assert (f + [b])[1..] == f[1..] + [b];
      RemoveLast(f[1..], b);
      assert f == [f[0]] + f[1..];
    }
  }

  /** Allocate-then-free restores the whole heap whenever the allocation leaked nothing. */
  lemma AllocFreeRestores(p: Params, s: Heap, i: nat, pre: nat, n: nat)
    requires Inv(p, s) && n > 0 && i < |s.h.free| && pre + n <= s.h.free[i].size
    requires Dropped(s.h.free[i], pre, n, p.MinBlock()) == {}
    ensures s.Alloc(i, pre, n, p.MinBlock()).Free(Block(s.h.free[i].start + pre, n)) == s
  {
    hide Layout.Alloc, Layout.Free, Dropped;
    var b := Block(s.h.free[i].start + pre, n);
    LayoutRestores(p, s, i, pre, n);
    assert s.headers - {b.start} == s.headers && (map a | a in s.mem && !b.Has(a) :: s.mem[a]) == s.mem by {
      AllocIsNew(p, s, i, pre, n);
      NoHeaderThere(p, s, b);
    }
  }

  lemma LayoutRestores(p: Params, s: Heap, i: nat, pre: nat, n: nat)
    requires Inv(p, s) && n > 0 && i < |s.h.free| && pre + n <= s.h.free[i].size
    requires Dropped(s.h.free[i], pre, n, p.MinBlock()) == {}
    ensures s.h.Alloc(i, pre, n, p.MinBlock()).Free(Block(s.h.free[i].start + pre, n)) == s.h
  {
    hide Inv, Canonical, Insert, Carve, Dropped, Remove, Params.MinBlock;
    var b := Block(s.h.free[i].start + pre, n);
    NotLiveYet(p, s, i, pre, n);
    RemoveLast(s.h.live, b);
    CarvedRestores(s.h.free, i, pre, n, p.MinBlock());
    assert s.h.leaked + {} == s.h.leaked;
  }

  lemma NotLiveYet(p: Params, s: Heap, i: nat, pre: nat, n: nat)
    requires Inv(p, s) && n > 0 && i < |s.h.free| && pre + n <= s.h.free[i].size
    ensures Canonical(s.h.free) && Block(s.h.free[i].start + pre, n) !in s.h.live
  {
    AllocIsNew(p, s, i, pre, n);
  }

  lemma NoHeaderThere(p: Params, s: Heap, b: Block)
    requires Inv(p, s) && b.size > 0 && forall c :: c in s.h.live ==> Disjoint(b, c)
    ensures b.start !in s.headers
  {
  }

  lemma CarvedRestores(f: seq<Block>, i: nat, pre: nat, n: nat, min: nat)
    requires Canonical(f) && n > 0 && min > 0 && i < |f| && pre + n <= f[i].size
    requires Dropped(f[i], pre, n, min) == {}
    ensures Insert(Carve(f, i, pre, n, min), Block(f[i].start + pre, n)) == f
  {
    var b := Block(f[i].start + pre, n);
    CarveCanonical(f, i, pre, n, min);
    forall a ensures Covers(Carve(f, i, pre, n, min), a) <==> Covers(f, a) && !b.Has(a)
             ensures b.Has(a) ==> Covers(f, a)
    {
      CarveCovers(f, i, pre, n, min, a);
      assert b.Has(a) ==> f[i].Has(a);
    }
    CarveThenInsert(f, Carve(f, i, pre, n, min), b);
  }

  /** What a caller holds: an aligned block or an autosized one, and what it has stored there. */
  datatype Grant = Grant(auto: bool, ptr: int, size: nat, data: map<nat, int>)

  datatype Request =
    | Donate(start: int, len: nat)
    | Alloc(size: nat, align: nat, offset: nat)
    | New(size: nat)
    | Resize(index: nat, size: nat)
    | Store(index: nat, at: nat, value: int)
    | Entrust(index: nat, at: nat)
    | Release(index: nat)

  function Without<T>(s: seq<T>, i: nat): seq<T>
    requires i < |s|
  {
    s[..i] + s[i + 1..]
  }

  /** What the caller holds after a request that returned `ptr`. A block keeps its data until it is
      given up; `realloc` keeps the data up to the smaller size. */
  function After(held: seq<Grant>, r: Request, ptr: int): seq<Grant> {
    match r
    case Donate(_, _) => held
    case Alloc(size, _, _) => if ptr == NULL then held else held + [Grant(false, ptr, size, map[])]
    case New(size) => if ptr == NULL || size == 0 then held else held + [Grant(true, ptr, size, map[])]
    case Resize(i, size) =>
      if i >= |held| || !held[i].auto || ptr == NULL then held
      else if size == 0 then Without(held, i)
      else held[i := Grant(true, ptr, size, map o | o in held[i].data && o < size :: held[i].data[o])]
    case Store(i, at, v) =>
      if i >= |held| || at >= held[i].size then held
      else held[i := held[i].(data := held[i].data[at := v])]
    case Entrust(i, _) => if i < |held| then Without(held, i) else held
    case Release(i) => if i < |held| then Without(held, i) else held
  }

  function Replay(held: seq<Grant>, requests: seq<Request>, results: seq<int>): seq<Grant>
    requires |requests| == |results|
  {
    if requests == [] then held
    else
      var k := |requests| - 1;
      After(Replay(held, requests[..k], results[..k]), requests[k], results[k])
  }

  function Whole(len: nat, m: nat): nat
    requires m > 0
  {
    RemainderBelow(len, m);
    len - len % m
  }

  lemma RemainderBelow(len: nat, m: nat)
    requires m > 0
    ensures len % m <= len
  {
    if len < m { DivUnique(len, m, 0, len); }
  }

  ghost function Donated(p: Params, pool: seq<Block>, r: Request): seq<Block> {
    if r.Donate? then pool + [Block(r.start, Whole(r.len, p.MinBlock()))] else pool
  }

  /** The donated regions after a run. */
  ghost function PoolAfter(p: Params, pool: seq<Block>, requests: seq<Request>): seq<Block> {
    if requests == [] then pool
    else
      var k := |requests| - 1;
      Donated(p, PoolAfter(p, pool, requests[..k]), requests[k])
  }

  /** The demands the allocator makes on its callers: donated regions are apart and hold at least
      one minimum block, and sizes are representable. */
  ghost predicate Legal(h: Allocator, pool: seq<Block>, r: Request) {
    match r
    case Donate(start, len) =>
      && NULL < start && h.par.MinBlock() <= len
      && DisjointFrom(pool, Block(start, len)) && Sum(pool) + len < h.par.Word() / 2
    case Alloc(size, align, _) => h.Representable(size, align) && IsPow2(align) && align > 0
    case New(size) => size > 0 ==> h.Representable(size + h.par.header, 1)
    case Resize(_, size) => size > 0 ==> h.Representable(size + h.par.header, 1)
    case Store(_, _, _) => true
    case Entrust(_, _) => true
    case Release(_) => true
  }

  ghost predicate LegalRun(h: Allocator, pool: seq<Block>, requests: seq<Request>)
    decreases |requests|
  {
    requests == [] || (Legal(h, pool, requests[0]) && LegalRun(h, Donated(h.par, pool, requests[0]), requests[1..]))
  }

  ghost predicate InPhase(h: Allocator, r: Request) {
    r.Alloc? ==> r.offset % h.par.MinBlock() == 0
  }

  ghost function BlockOf(p: Params, g: Grant): Block
    requires p.Ok()
  {
    if g.auto then AutosizedBlock(p, g.ptr, g.size) else Block(g.ptr, p.RoundUp(g.size))
  }

  /** The grant's data lies in memory. */
  ghost predicate Stored(mem: map<int, int>, g: Grant) {
    forall o :: o in g.data ==> o < g.size && g.ptr + o in mem && mem[g.ptr + o] == g.data[o]
  }

  /** The block is the caller's, has room for its size, and holds what was stored in it. */
  ghost predicate Intact(p: Params, s: Heap, g: Grant)
    requires p.Ok()
  {
    && s.Owned(BlockOf(p, g))
    && BlockOf(p, g).start <= g.ptr && g.ptr + g.size <= BlockOf(p, g).End()
    && (g.auto ==> AutosizedIn(p, s, g.ptr, g.size))
    && Stored(s.mem, g)
  }

  /** The blocks handed out are intact and pairwise disjoint. */
  ghost predicate Holds(p: Params, s: Heap, held: seq<Grant>) {
    && p.Ok()
    && (forall i :: 0 <= i < |held| ==> Intact(p, s, held[i]))
    && (forall i, j :: 0 <= i < j < |held| ==> Disjoint(BlockOf(p, held[i]), BlockOf(p, held[j])))
  }

  /** No block is allocated that is neither held nor entrusted to a cache discarder. */
  ghost predicate NoneLost(p: Params, s: Heap, held: seq<Grant>)
    requires p.Ok()
  {
    forall b :: s.Owned(b) ==> exists i :: 0 <= i < |held| && BlockOf(p, held[i]) == b
  }

  lemma StaysIntact(p: Params, s: Heap, t: Heap, g: Grant)
    requires p.Ok() && Intact(p, s, g) && Undisturbed(s, t, BlockOf(p, g))
    ensures Intact(p, t, g)
  {
    hide Params.RoundUp;
    forall o | o in g.data ensures g.ptr + o in t.mem && t.mem[g.ptr + o] == g.data[o] {
      assert BlockOf(p, g).Has(g.ptr + o);
    }
  }

  lemma HoldsUndisturbed(p: Params, s: Heap, t: Heap, held: seq<Grant>)
    requires Holds(p, s, held) && forall b :: s.Owned(b) ==> Undisturbed(s, t, b)
    requires forall b :: t.Owned(b) ==> s.Owned(b)
    ensures Holds(p, t, held) && (NoneLost(p, s, held) ==> NoneLost(p, t, held))
  {
    hide Intact, BlockOf, Undisturbed;
    forall i | 0 <= i < |held| ensures Intact(p, t, held[i]) {
      IntactOwned(p, s, held[i]);
      StaysIntact(p, s, t, held[i]);
    }
  }

  lemma IntactOwned(p: Params, s: Heap, g: Grant)
    requires p.Ok() && Intact(p, s, g)
    ensures s.Owned(BlockOf(p, g))
  {
  }

  /** From `s` to `t` the caller gained exactly the block of `g`. */
  ghost predicate Gained(p: Params, s: Heap, t: Heap, g: Grant)
    requires p.Ok()
  {
    && Intact(p, t, g)
    && (forall b :: s.Owned(b) ==> Undisturbed(s, t, b) && Disjoint(BlockOf(p, g), b))
    && (forall b :: t.Owned(b) ==> s.Owned(b) || b == BlockOf(p, g))
  }

  lemma HoldsGained(p: Params, s: Heap, t: Heap, held: seq<Grant>, g: Grant)
    requires Holds(p, s, held) && Gained(p, s, t, g)
    ensures Holds(p, t, held + [g]) && (NoneLost(p, s, held) ==> NoneLost(p, t, held + [g]))
  {
    hide Intact, BlockOf, Undisturbed;
    var held' := held + [g];
    forall i | 0 <= i < |held| ensures Intact(p, t, held[i]) && Disjoint(BlockOf(p, held[i]), BlockOf(p, g)) {
      IntactOwned(p, s, held[i]);
      StaysIntact(p, s, t, held[i]);
    }
    if NoneLost(p, s, held) {
      forall b | t.Owned(b) ensures exists i :: 0 <= i < |held'| && BlockOf(p, held'[i]) == b {
        if b == BlockOf(p, g) {
          assert held'[|held|] == g;
        } else {
          var i :| 0 <= i < |held| && BlockOf(p, held[i]) == b;
          assert held'[i] == held[i];
        }
      }
    }
  }

  lemma HeldApart(p: Params, s: Heap, held: seq<Grant>, i: nat, j: nat)
    requires Inv(p, s) && Holds(p, s, held) && i < |held| && j < |held| && i != j
    ensures Disjoint(BlockOf(p, held[i]), BlockOf(p, held[j])) && BlockOf(p, held[i]) != BlockOf(p, held[j])
  {
    hide BlockOf;
    IntactOwned(p, s, held[i]);
    IntactOwned(p, s, held[j]);
  }

  lemma HoldsLost(p: Params, s: Heap, t: Heap, held: seq<Grant>, k: nat)
    requires Inv(p, s) && Holds(p, s, held) && k < |held| && Lost(s, t, BlockOf(p, held[k]))
    ensures Holds(p, t, Without(held, k)) && (NoneLost(p, s, held) ==> NoneLost(p, t, Without(held, k)))
  {
    hide Inv, Intact, BlockOf, Undisturbed, Without;
    forall i | 0 <= i < |held| && i != k ensures Intact(p, t, held[i]) {
      HeldApart(p, s, held, i, k);
      IntactOwned(p, s, held[i]);
      StaysIntact(p, s, t, held[i]);
    }
    HoldsWithout(p, t, held, k);
    if NoneLost(p, s, held) {
      forall b | t.Owned(b) ensures exists i :: 0 <= i < |Without(held, k)| && BlockOf(p, Without(held, k)[i]) == b {
        var i :| 0 <= i < |held| && BlockOf(p, held[i]) == b;
        WithoutAt(held, k, if i < k then i else i - 1);
      }
    }
  }

  lemma WithoutAt<T>(s: seq<T>, k: nat, i: nat)
    requires k < |s| && i < |s| - 1
    ensures |Without(s, k)| == |s| - 1 && Without(s, k)[i] == s[if i < k then i else i + 1]
  {
  }

  lemma HoldsWithout(p: Params, t: Heap, held: seq<Grant>, k: nat)
    requires p.Ok() && k < |held| && forall i :: 0 <= i < |held| && i != k ==> Intact(p, t, held[i])
    requires forall i, j :: 0 <= i < j < |held| ==> Disjoint(BlockOf(p, held[i]), BlockOf(p, held[j]))
    ensures Holds(p, t, Without(held, k))
  {
    hide Intact, BlockOf;
    var rest := Without(held, k);
    assert forall i :: 0 <= i < |rest| ==> rest[i] == held[if i < k then i else i + 1];
  }

  /** From `s` to `t` the block of `g` was replaced by the block of `g'`. */
  ghost predicate Exchanged(p: Params, s: Heap, t: Heap, g: Grant, g': Grant)
    requires p.Ok()
  {
    && Intact(p, t, g')
    && (forall b :: s.Owned(b) && b != BlockOf(p, g) ==> Undisturbed(s, t, b) && Disjoint(BlockOf(p, g'), b))
    && (forall b :: t.Owned(b) ==> (s.Owned(b) && b != BlockOf(p, g)) || b == BlockOf(p, g'))
  }

  lemma HoldsExchanged(p: Params, s: Heap, t: Heap, held: seq<Grant>, k: nat, g: Grant)
    requires Inv(p, s) && Holds(p, s, held) && k < |held| && Exchanged(p, s, t, held[k], g)
    ensures Holds(p, t, held[k := g]) && (NoneLost(p, s, held) ==> NoneLost(p, t, held[k := g]))
  {
    hide Inv, Intact, BlockOf, Undisturbed;
    var held' := held[k := g];
    forall i | 0 <= i < |held| && i != k
      ensures Intact(p, t, held[i]) && Disjoint(BlockOf(p, held[i]), BlockOf(p, g)) && Disjoint(BlockOf(p, g), BlockOf(p, held[i]))
    {
      HeldApart(p, s, held, i, k);
      IntactOwned(p, s, held[i]);
      StaysIntact(p, s, t, held[i]);
    }
    if NoneLost(p, s, held) {
      forall b | t.Owned(b) ensures exists i :: 0 <= i < |held'| && BlockOf(p, held'[i]) == b {
        if b == BlockOf(p, g) {
          assert held'[k] == g;
        } else {
          var i :| 0 <= i < |held| && BlockOf(p, held[i]) == b;
          assert held'[i] == held[i];
        }
      }
    }
  }

  lemma ReallocGains(p: Params, s: Heap, t: Heap, ptr: int, size: nat)
    requires Inv(p, t) && size > 0 && Reallocated(p, s, t, false, NULL, 0, ptr, size)
    ensures Gained(p, s, t, Grant(true, ptr, size, map[]))
  {
    AutosizedRoom(p, t, ptr, size);
  }

  lemma ReallocLoses(p: Params, s: Heap, t: Heap, g: Grant, dst: int)
    requires p.Ok() && g.auto && Reallocated(p, s, t, true, g.ptr, g.size, dst, 0)
    ensures Lost(s, t, BlockOf(p, g))
  {
  }

  lemma StoredCarried(before: map<int, int>, after: map<int, int>, g: Grant, ptr: int, size: nat)
    requires Stored(before, g) && SameContents(before, g.ptr, after, ptr, Min(g.size, size))
    ensures Stored(after, Grant(true, ptr, size, map o | o in g.data && o < size :: g.data[o]))
  {
    var g' := Grant(true, ptr, size, map o | o in g.data && o < size :: g.data[o]);
    forall o | o in g'.data ensures ptr + o in after && after[ptr + o] == g'.data[o] {
      assert ptr + ((g.ptr + o) - g.ptr) == ptr + o;
    }
  }

  lemma ReallocExchanges(p: Params, s: Heap, t: Heap, g: Grant, ptr: int, size: nat)
    requires Inv(p, t) && g.auto && Intact(p, s, g) && size > 0
    requires Reallocated(p, s, t, true, g.ptr, g.size, ptr, size)
    ensures Exchanged(p, s, t, g, Grant(true, ptr, size, map o | o in g.data && o < size :: g.data[o]))
  {
    AutosizedRoom(p, t, ptr, size);
    hide Inv, Params.RoundUp, Stored, SameContents, Undisturbed;
    StoredCarried(s.mem, t.mem, g, ptr, size);
  }

  lemma StoreExchanges(p: Params, s: Heap, g: Grant, at: nat, v: int)
    requires Inv(p, s) && Intact(p, s, g) && at < g.size
    ensures Exchanged(p, s, s.Store(g.ptr + at, v), g, g.(data := g.data[at := v]))
  {
    assert p.Ok();
    hide Inv, BlockOf, Intact, Undisturbed, Heap.Store;
    StoreIntact(p, s, g, at, v);
    forall c ensures s.Store(g.ptr + at, v).Owned(c) <==> s.Owned(c) { StoreOwned(s, g.ptr + at, v, c); }
    var b := BlockOf(p, g);
    StoreKeeps(p, s, b, g.ptr + at, v);
    forall c | s.Owned(c) && c != b ensures Disjoint(b, c) { OwnedDisjoint(p, s, b, c); }
  }

  lemma StoreOwned(s: Heap, a: int, v: int, b: Block)
    ensures s.Store(a, v).Owned(b) <==> s.Owned(b)
  {
  }

  lemma StoreIntact(p: Params, s: Heap, g: Grant, at: nat, v: int)
    requires p.Ok() && Intact(p, s, g) && at < g.size
    ensures s.Owned(BlockOf(p, g)) && BlockOf(p, g).Has(g.ptr + at)
    ensures var g' := g.(data := g.data[at := v]); BlockOf(p, g') == BlockOf(p, g) && Intact(p, s.Store(g.ptr + at, v), g')
  {
    hide Params.RoundUp, Stored;
    StoredStore(s.mem, g, at, v);
  }

  lemma StoredStore(mem: map<int, int>, g: Grant, at: nat, v: int)
    requires Stored(mem, g) && at < g.size
    ensures Stored(mem[g.ptr + at := v], g.(data := g.data[at := v]))
  {
  }

  /** Nothing is cached any more and no address fits. */
  ghost predicate Full(h: Allocator, t: Heap, size: nat, align: nat, offset: nat) {
    h.par.Ok() && t.cache == [] && h.NoPlacement(t, size, align, offset)
  }

  /** What the pointer returned says about the heap `t` after the request: an aligned block lies where
      it was asked for, size zero gives the reserved pointer, and failure means that there is no room. */
  ghost predicate Answered(h: Allocator, t: Heap, held: seq<Grant>, r: Request, ptr: int) {
    match r
    case Alloc(size, align, offset) =>
      if ptr == NULL then Full(h, t, size, align, offset) else align > 0 && (ptr + h.par.phys - offset) % align == 0
    case New(size) => AutoAnswered(h, t, size, ptr)
    case Resize(i, size) => i < |held| && held[i].auto ==> AutoAnswered(h, t, size, ptr)
    case Donate(_, _) => true
    case Store(_, _, _) => true
    case Entrust(_, _) => true
    case Release(_) => true
  }

  ghost predicate AutoAnswered(h: Allocator, t: Heap, size: nat, ptr: int) {
    (size == 0 ==> ptr == NOWHERE) && (ptr == NULL ==> Full(h, t, size + h.par.header, 1, 0))
  }

  /** Serve one request. */
  method Serve(h: Allocator, r: Request, held: seq<Grant>) returns (ptr: int, held': seq<Grant>)
    requires h.Valid() && Holds(h.par, h.State(), held) && Legal(h, h.pool, r)
    modifies h
    ensures h.Valid() && h.pool == Donated(h.par, old(h.pool), r)
    ensures held' == After(held, r, ptr) && Holds(h.par, h.State(), held') && Answered(h, h.State(), held, r, ptr)
    ensures old(NoneLost(h.par, h.State(), held)) ==> NoneLost(h.par, h.State(), held')
    ensures old(h.Aligned()) && InPhase(h, r) ==> h.Aligned()
  {
    hide Full, Inv, Phased, Holds, NoneLost, Intact, NewBlock, OnlyDiscarded, Reallocated, Params.RoundUp, Allocator.Representable;
    ptr, held' := NULL, held;
    match r
    case Donate(start, len) =>
      ServeDonate(h, start, len, held);
    case Alloc(size, align, offset) =>
      ptr, held' := ServeAlloc(h, size, align, offset, held);
    case New(size) =>
      ptr, held' := ServeNew(h, size, held);
    case Resize(i, size) =>
      if i < |held| && held[i].auto {
        ptr, held' := ServeResize(h, i, size, held);
      }
    case Store(i, at, v) =>
      if i < |held| && at < held[i].size {
        held' := ServeStore(h, i, at, v, held);
      }
    case Entrust(i, at) =>
      if i < |held| {
        held' := ServeEntrust(h, i, at, held);
      }
    case Release(i) =>
      if i < |held| {
        held' := ServeRelease(h, i, held);
      }
  }

  method ServeDonate(h: Allocator, start: int, len: nat, held: seq<Grant>)
    requires h.Valid() && Holds(h.par, h.State(), held) && Legal(h, h.pool, Donate(start, len))
    modifies h
    ensures h.Valid() && h.pool == Donated(h.par, old(h.pool), Donate(start, len))
    ensures Holds(h.par, h.State(), held)
    ensures old(NoneLost(h.par, h.State(), held)) ==> NoneLost(h.par, h.State(), held)
    ensures old(h.Aligned()) ==> h.Aligned()
  {
    hide Inv, Phased, Holds, NoneLost, Insert;
    ghost var s := h.State();
    SumNonNegative(h.pool);
    h.Populate(start, len);
    HoldsUndisturbed(h.par, s, h.State(), held);
  }

  method ServeAlloc(h: Allocator, size: nat, align: nat, offset: nat, held: seq<Grant>) returns (ptr: int, held': seq<Grant>)
    requires h.Valid() && Holds(h.par, h.State(), held) && Legal(h, h.pool, Alloc(size, align, offset))
    modifies h
    ensures h.Valid() && h.pool == old(h.pool)
    ensures held' == After(held, Alloc(size, align, offset), ptr) && Holds(h.par, h.State(), held')
    ensures Answered(h, h.State(), held, Alloc(size, align, offset), ptr)
    ensures old(NoneLost(h.par, h.State(), held)) ==> NoneLost(h.par, h.State(), held')
    ensures old(h.Aligned()) && offset % h.par.MinBlock() == 0 ==> h.Aligned()
  {
    hide Inv, Phased, Holds, NoneLost, Params.RoundUp, Allocator.NoPlacement;
    h.ParametersOk();
    ghost var s := h.State();
    held' := held;
    ghost var discards, entry;
    ptr, discards, entry := h.MallocDma(size, align, offset);
    if ptr != NULL {
      HoldsGained(h.par, s, h.State(), held, Grant(false, ptr, size, map[]));
      held' := held + [Grant(false, ptr, size, map[])];
    } else {
      HoldsUndisturbed(h.par, s, h.State(), held);
    }
  }

  method ServeNew(h: Allocator, size: nat, held: seq<Grant>) returns (ptr: int, held': seq<Grant>)
    requires h.Valid() && Holds(h.par, h.State(), held) && Legal(h, h.pool, New(size))
    modifies h
    ensures h.Valid() && h.pool == old(h.pool)
    ensures held' == After(held, New(size), ptr) && Holds(h.par, h.State(), held') && AutoAnswered(h, h.State(), size, ptr)
    ensures old(NoneLost(h.par, h.State(), held)) ==> NoneLost(h.par, h.State(), held')
    ensures old(h.Aligned()) ==> h.Aligned()
  {
    hide Inv, Phased, Holds, NoneLost, Params.RoundUp, Gained, AutosizedIn, Allocator.NoPlacement;
    h.ParametersOk();
    ghost var s := h.State();
    held' := held;
    ghost var discards, entry;
    ptr, discards, entry := h.Malloc(size);
    if ptr == NULL || size == 0 {
      HoldsUndisturbed(h.par, s, h.State(), held);
    } else {
      ReallocGains(h.par, s, h.State(), ptr, size);
      HoldsGained(h.par, s, h.State(), held, Grant(true, ptr, size, map[]));
      held' := held + [Grant(true, ptr, size, map[])];
    }
  }

  method ServeResize(h: Allocator, i: nat, size: nat, held: seq<Grant>) returns (ptr: int, held': seq<Grant>)
    requires h.Valid() && Holds(h.par, h.State(), held) && Legal(h, h.pool, Resize(i, size)) && i < |held| && held[i].auto
    modifies h
    ensures h.Valid() && h.pool == old(h.pool)
    ensures held' == After(held, Resize(i, size), ptr) && Holds(h.par, h.State(), held') && AutoAnswered(h, h.State(), size, ptr)
    ensures old(NoneLost(h.par, h.State(), held)) ==> NoneLost(h.par, h.State(), held')
    ensures old(h.Aligned()) ==> h.Aligned()
  {
    hide Inv, Phased, NoneLost, Params.RoundUp, Reallocated, Exchanged, Lost, Allocator.NoPlacement;
    h.ParametersOk();
    ghost var s := h.State();
    var g := held[i];
    AboveNull(h.par, s, g);
    held' := held;
    ghost var discards, entry, mid;
    ptr, discards, entry, mid := h.Realloc(g.ptr, size, g.size);
    if ptr == NULL {
      HoldsUndisturbed(h.par, s, h.State(), held);
    } else if size == 0 {
      ReallocLoses(h.par, s, h.State(), g, ptr);
      HoldsLost(h.par, s, h.State(), held, i);
      held' := Without(held, i);
    } else {
      var g' := Grant(true, ptr, size, map o | o in g.data && o < size :: g.data[o]);
      ReallocExchanges(h.par, s, h.State(), g, ptr, size);
      HoldsExchanged(h.par, s, h.State(), held, i, g');
      held' := held[i := g'];
    }
  }

  lemma AboveNull(p: Params, s: Heap, g: Grant)
    requires Inv(p, s) && Intact(p, s, g)
    ensures NULL < BlockOf(p, g).start <= g.ptr
  {
    LiveAboveNull(p, s, BlockOf(p, g));
  }

  method ServeStore(h: Allocator, i: nat, at: nat, v: int, held: seq<Grant>) returns (held': seq<Grant>)
    requires h.Valid() && Holds(h.par, h.State(), held) && i < |held| && at < held[i].size
    modifies h
    ensures h.Valid() && h.pool == old(h.pool)
    ensures held' == held[i := held[i].(data := held[i].data[at := v])] && Holds(h.par, h.State(), held')
    ensures old(NoneLost(h.par, h.State(), held)) ==> NoneLost(h.par, h.State(), held')
    ensures old(h.Aligned()) ==> h.Aligned()
  {
    hide Inv, Phased, NoneLost, Params.RoundUp, Exchanged;
    ghost var s := h.State();
    var g := held[i];
    StoreExchanges(h.par, s, g, at, v);
    h.Store(g.ptr + at, v, BlockOf(h.par, g));
    held' := held[i := g.(data := g.data[at := v])];
    HoldsExchanged(h.par, s, h.State(), held, i, held'[i]);
  }

  method ServeEntrust(h: Allocator, i: nat, at: nat, held: seq<Grant>) returns (held': seq<Grant>)
    requires h.Valid() && Holds(h.par, h.State(), held) && i < |held|
    modifies h
    ensures h.Valid() && h.pool == old(h.pool)
    ensures held' == Without(held, i) && Holds(h.par, h.State(), held')
    ensures old(NoneLost(h.par, h.State(), held)) ==> NoneLost(h.par, h.State(), held')
    ensures old(h.Aligned()) ==> h.Aligned()
  {
    hide Inv, Phased, NoneLost, Params.RoundUp, Lost;
    h.ParametersOk();
    ghost var s := h.State();
    var g := held[i];
    var b := if g.auto then AutosizedBlock(h.par, g.ptr, g.size) else Block(g.ptr, h.par.RoundUp(g.size));
    var place := if at < |h.cache| then at else |h.cache|;
    EntrustKeeps(h.par, s, b, place);
    h.Entrust(b, place);
    HoldsLost(h.par, s, h.State(), held, i);
    held' := Without(held, i);
  }

  method ServeRelease(h: Allocator, i: nat, held: seq<Grant>) returns (held': seq<Grant>)
    requires h.Valid() && Holds(h.par, h.State(), held) && i < |held|
    modifies h
    ensures h.Valid() && h.pool == old(h.pool)
    ensures held' == Without(held, i) && Holds(h.par, h.State(), held')
    ensures old(NoneLost(h.par, h.State(), held)) ==> NoneLost(h.par, h.State(), held')
    ensures old(h.Aligned()) ==> h.Aligned()
  {
    hide Inv, Phased, NoneLost, Params.RoundUp, Lost, Reallocated;
    h.ParametersOk();
    ghost var s := h.State();
    var g := held[i];
    AboveNull(h.par, s, g);
    if g.auto {
      h.Free(g.ptr, g.size);
      ReallocLoses(h.par, s, h.State(), g, NOWHERE);
    } else {
      FreeLoses(h.par, s, BlockOf(h.par, g));
      h.FreeMemblock(g.ptr, g.size);
    }
    HoldsLost(h.par, s, h.State(), held, i);
    held' := Without(held, i);
  }

  lemma {:induction false} SumNonNegative(f: seq<Block>)
    ensures Sum(f) >= 0
  {
    if f != [] { SumNonNegative(f[1..]); }
  }

  lemma AllAccounted(h: Allocator)
    requires h.Valid()
    ensures h.freemem + Sum(h.live) == Sum(h.pool)
  {
    FreememMeaning(h.par, h.State());
  }

  /** The state of a run after request `k`: the blocks held are those the requests and their results
      leave, intact and pairwise disjoint, and the last result says whether there was room. */
  ghost predicate Served(h: Allocator, t: Heap, held0: seq<Grant>, requests: seq<Request>, results: seq<int>, k: nat)
    requires k < |requests| && k < |results|
  {
    && Inv(h.par, t)
    && Holds(h.par, t, Replay(held0, requests[..k + 1], results[..k + 1]))
    && Answered(h, t, Replay(held0, requests[..k], results[..k]), requests[k], results[k])
  }

  lemma ReplayLast(held0: seq<Grant>, requests: seq<Request>, results: seq<int>, k: nat, ptr: int)
    requires k < |requests| && k == |results|
    ensures var r := results + [ptr];
            && Replay(held0, requests[..k + 1], r) == After(Replay(held0, requests[..k], results), requests[k], ptr)
            && r[..k] == results && r[..k + 1] == r
  {
    assert requests[..k + 1][..k] == requests[..k] && (results + [ptr])[..k] == results;
  }

  lemma ServedStays(h: Allocator, t: Heap, held0: seq<Grant>, requests: seq<Request>, results: seq<int>, ptr: int, k: nat)
    requires k < |requests| && k < |results| && Served(h, t, held0, requests, results, k)
    ensures Served(h, t, held0, requests, results + [ptr], k)
  {
    assert (results + [ptr])[..k] == results[..k] && (results + [ptr])[..k + 1] == results[..k + 1];
  }

  /** Serve any run of donations, allocations, reallocations, writes and releases, with blocks left
      to cache discarders at any time; `heaps` are the heaps after each request. Whatever the
      requests, at every point the caller holds exactly the blocks it was given and has not given up;
      they are pairwise disjoint and still hold what was stored in them; a request fails only if
      nothing is cached and no address fits. In the end nothing is allocated but what the caller and
      the discarders hold, every donated byte is accounted for, and if all offsets are multiples of
      the minimum block, at most one minimum block per donated region has been leaked. */
  method Session(h: Allocator, held0: seq<Grant>, requests: seq<Request>)
    returns (held: seq<Grant>, results: seq<int>, ghost heaps: seq<Heap>)
    requires h.Valid() && Holds(h.par, h.State(), held0) && LegalRun(h, h.pool, requests)
    modifies h
    ensures h.Valid() && |heaps| == |results| == |requests| && h.pool == PoolAfter(h.par, old(h.pool), requests)
    ensures held == Replay(held0, requests, results) && Holds(h.par, h.State(), held)
    ensures forall k :: 0 <= k < |requests| ==> Served(h, heaps[k], held0, requests, results, k)
    ensures h.State() == if requests == [] then old(h.State()) else heaps[|requests| - 1]
    ensures old(NoneLost(h.par, h.State(), held0)) ==> NoneLost(h.par, h.State(), held)
    ensures h.freemem + Sum(h.live) == Sum(h.pool)
    ensures old(h.Aligned()) && (forall r :: r in requests ==> InPhase(h, r)) ==>
              |h.leaked| <= |h.pool| * h.par.MinBlock()
  {
    hide Holds, NoneLost, Phased, Legal, After, Donated, InPhase, Inv, Served, Answered, Replay;
    h.ParametersOk();
    held, results, heaps := held0, [], [];
    ReplayNothing(held0);
    ghost var tame := h.Aligned() && forall r :: r in requests ==> InPhase(h, r);
    assert requests[0..] == requests;
    for k := 0 to |requests|
      invariant h.Valid() && |heaps| == |results| == k && LegalRun(h, h.pool, requests[k..])
      invariant h.pool == PoolAfter(h.par, old(h.pool), requests[..k])
      invariant held == Replay(held0, requests[..k], results) && Holds(h.par, h.State(), held)
      invariant forall i :: 0 <= i < k ==> Served(h, heaps[i], held0, requests, results, i)
      invariant h.State() == if k == 0 then old(h.State()) else heaps[k - 1]
      invariant old(NoneLost(h.par, h.State(), held0)) ==> NoneLost(h.par, h.State(), held)
      invariant tame ==> h.Aligned()
    {
      var ptr;
      ghost var before := held;
      assert requests[k..][0] == requests[k] && requests[k..][1..] == requests[k + 1..];
      assert requests[..k + 1][..k] == requests[..k];
      ptr, held := Serve(h, requests[k], held);
      ReplayLast(held0, requests, results, k, ptr);
      forall i | 0 <= i < k ensures Served(h, heaps[i], held0, requests, results + [ptr], i) {
        ServedStays(h, heaps[i], held0, requests, results, ptr, i);
      }
      results, heaps := results + [ptr], heaps + [h.State()];
      ServedNow(h, h.State(), held0, requests, results, k);
    }
    assert requests[..|requests|] == requests;
    AllAccounted(h);
    if tame { LeakBound(h.State().h, h.par.phys, h.par.MinBlock()); }
  }

  lemma ReplayNothing(held0: seq<Grant>)
    ensures Replay(held0, [], []) == held0
  {
  }

  lemma ServedNow(h: Allocator, t: Heap, held0: seq<Grant>, requests: seq<Request>, results: seq<int>, k: nat)
    requires k < |requests| && k + 1 == |results|
    requires Inv(h.par, t) && Holds(h.par, t, Replay(held0, requests[..k + 1], results))
    requires Answered(h, t, Replay(held0, requests[..k], results[..k]), requests[k], results[k])
    ensures Served(h, t, held0, requests, results, k)
  {
    assert results[..k + 1] == results;
  }
}
