/** Dynamic memory allocation: a first-fit allocator over an address-ordered,
    coalescing free list, with the autosized malloc/realloc layer on top of it.

    The links and sizes that the C code keeps inside free memory are the sequence
    `free`; what the allocator must respect without recording it (which blocks are
    live, which bytes were leaked, which regions were donated) is ghost state. */
module Malloc {
  import opened Bits
  import opened FreeList
  import opened HeapLayout
  import opened HeapPhase
  import opened HeapState

  /** The list walk of `free_memblock`: insert `b` before the block that follows it, merging it
      with a neighbour on either side when there is no gap. */
  method InsertFree(list: seq<Block>, b: Block) returns (r: seq<Block>)
    requires forall c :: c in list ==> c.size > 0
    ensures r == Insert(list, b)
  {
    hide Insert;
    r := list;
    var freeing := b;
    var gapAfter := -1;
    assert r[..0] == [] && r[0..] == r;
    var i := 0;
    while i < |r|
      invariant 0 <= i <= |r|
      invariant forall c :: c in r ==> c.size > 0
      invariant gapAfter < 0
      invariant Insert(list, b) == r[..i] + Insert(r[i..], freeing)
      decreases |r| - i
    {
      var block := r[i];
      var gapBefore := freeing.start - block.End();
      gapAfter := block.start - freeing.End();
      if gapBefore == 0 {
        InsertMerged(r, i, freeing);
        freeing := Block(block.start, block.size + freeing.size);
        r := r[..i] + r[i + 1..];
      }
      if gapAfter >= 0 {
        break;
      }
      if gapBefore != 0 {
        InsertPast(r, i, freeing);
        i := i + 1;
      }
    }
    InsertHere(r, i, freeing, gapAfter);
    r := r[..i] + [freeing] + r[i..];
    if gapAfter == 0 {
      r := r[..i] + [Block(freeing.start, freeing.size + r[i + 1].size)] + r[i + 2..];
    }
  }

  lemma InsertMerged(r: seq<Block>, i: nat, x: Block)
    requires i < |r| && r[i].End() == x.start && r[i].size > 0
    ensures var r', x' := r[..i] + r[i + 1..], Block(r[i].start, r[i].size + x.size);
            r[..i] + Insert(r[i..], x) == r'[..i] + Insert(r'[i..], x')
  {
    var r' := r[..i] + r[i + 1..];
    assert r'[..i] == r[..i] && r'[i..] == r[i + 1..] && r[i..][1..] == r[i + 1..];
  }

  lemma InsertPast(r: seq<Block>, i: nat, x: Block)
    requires i < |r| && x.End() > r[i].start && x.start != r[i].End()
    ensures r[..i] + Insert(r[i..], x) == r[..i + 1] + Insert(r[i + 1..], x)
  {
    assert r[i..][1..] == r[i + 1..];
    assert r[..i + 1] == r[..i] + [r[i]];
  }

  lemma InsertHere(r: seq<Block>, i: nat, x: Block, gap: int)
    requires i <= |r| && (i < |r| ==> gap == r[i].start - x.End() >= 0) && (i == |r| ==> gap < 0)
    ensures r[..i] + Insert(r[i..], x) ==
            if gap == 0 then r[..i] + [Block(x.start, x.size + r[i].size)] + r[i + 1..] else r[..i] + [x] + r[i..]
  {
    if i < |r| { assert r[i..][1..] == r[i + 1..]; }
  }

  /** Split entry `i` into pre-block, allocation and post-block, listing only the remainders that
      can hold a list entry of their own. */
  method SplitEntry(list: seq<Block>, i: nat, pre: nat, n: nat, min: nat) returns (r: seq<Block>)
    requires i < |list| && pre + n <= list[i].size
    ensures r == Carve(list, i, pre, n, min)
  {
    var b := list[i];
    var post := b.size - pre - n;
    r := list;
    if post >= min {
      r := r[..i + 1] + [Block(b.start + pre + n, post)] + r[i + 1..];
    }
    r := r[i := Block(b.start, pre)];
    if pre < min {
      r := r[..i] + r[i + 1..];
    }
  }

  lemma FitIsLowest(f: seq<Block>, i: nat, phys: int, n: nat, m: nat, offset: int)
    requires Canonical(f) && n > 0 && m > 0 && i < |f|
    requires forall k :: 0 <= k < i ==> Skip(f[k], phys, m, offset) + n > f[k].size
    requires Skip(f[i], phys, m, offset) + n <= f[i].size
    ensures Placement(f, phys, f[i].start + Skip(f[i], phys, m, offset), n, m, offset)
    ensures forall p :: Placement(f, phys, p, n, m, offset) ==> f[i].start + Skip(f[i], phys, m, offset) <= p
  {
    SkipSuits(f[i], phys, m, offset);
    assert forall a :: f[i].Has(a) ==> Covers(f, a);
    forall p | Placement(f, phys, p, n, m, offset) ensures f[i].start + Skip(f[i], phys, m, offset) <= p {
      FirstFitIsLowest(f, i, phys, n, m, offset, p);
    }
  }

  /** The static allocator state of malloc.c. */
  class Allocator {
    const par: Params

    var free: seq<Block>
    var freemem: int
    var cache: seq<Block>
    var headers: map<int, int>
    var mem: map<int, int>

    ghost var live: seq<Block>
    ghost var leaked: set<int>
    ghost var pool: seq<Block>

    ghost function State(): Heap reads this {
      Heap(Layout(pool, free, live, leaked), freemem, cache, headers, mem)
    }

    ghost predicate Valid() reads this { Inv(par, State()) }

    ghost predicate Aligned() reads this { Phased(State().h, par.phys, par.MinBlock()) }

    constructor (p: Params)
      requires p.Ok()
      ensures Valid() && Aligned() && par == p
      ensures State() == Heap(Layout([], [], [], {}), 0, [], map[], map[])
    {
      par := p;
      free, freemem, cache, headers, mem := [], 0, [], map[], map[];
      live, leaked, pool := [], {}, [];
    }

    /** `free_memblock` */
    method FreeMemblock(ptr: int, size: nat)
      requires Valid()
      requires ptr != NULL ==> State().Owned(Block(ptr, par.RoundUp(size)))
      modifies this
      ensures Valid()
      ensures State() == if ptr == NULL then old(State()) else old(State()).Free(Block(ptr, par.RoundUp(size)))
      ensures old(Aligned()) ==> Aligned()
    {
      hide Inv, Phased, Insert, Remove, Params.RoundUp;
      ListedSizes();
      if ptr == NULL {
        return;
      }
      var b := Block(ptr, par.RoundUp(size));
      ghost var after := State().Free(b);
      FreeKeepsInv(par, State(), b);
      var list := InsertFree(free, b);
      live := Remove(live, b);
      free, freemem, headers := list, freemem + b.size, headers - {ptr};
      mem := map a | a in mem && !b.Has(a) :: mem[a];
      assert State() == after;
    }

    /** `discard_cache`: have the first discarder that holds anything give up one block. */
    method DiscardCache() returns (discarded: nat)
      requires Valid()
      modifies this
      ensures Valid()
      ensures discarded == 0 <==> old(cache) == []
      ensures old(cache) != [] ==> cache == old(cache)[1..]
      ensures State() == if old(cache) == [] then old(State()) else old(State()).Discard()
      ensures old(Aligned()) ==> Aligned()
    {
      if cache == [] {
        return 0;
      }
      var b := cache[0];
      RoundUpLive(b);
      DiscardKeepsInv(par, State());
      ghost var s := State();
      cache := cache[1..];
      assert State() == s.(cache := s.cache[1..]);
      FreeMemblock(b.start, b.size);
      return 1;
    }

    /** A caller leaves a block to a cache discarder: from now on the allocator may take it back. */
    method Entrust(b: Block, at: nat)
      requires Valid() && State().Owned(b) && at <= |cache|
      modifies this
      ensures Valid() && State() == old(State()).Entrust(b, at)
      ensures old(Aligned()) ==> Aligned()
    {
      EntrustKeeps(par, State(), b, at);
      cache := cache[..at] + [b] + cache[at..];
    }

    /** A caller writes a byte of a block it owns. */
    method Store(a: int, v: int, ghost b: Block)
      requires Valid() && State().Owned(b) && b.Has(a)
      modifies this
      ensures Valid() && State() == old(State()).Store(a, v)
      ensures old(Aligned()) ==> Aligned()
    {
      StoreKeeps(par, State(), b, a, v);
      mem := mem[a := v];
    }

    lemma RoundUpLive(b: Block)
      requires Valid() && b in live
      ensures par.RoundUp(b.size) == b.size && b.start != NULL
    {
      SumMember(live, b);
      LayoutTotal(State().h, par.MinBlock());
      Pow2Add(2, par.wordBits - 2);
      Pow2Monotone(par.minLog, par.wordBits - 2);
      par.RoundUpMultiple(b.size);
      MemberCovers(live, b.start);
      MemberCovers(pool, b.start);
    }

    /** `mpopulate` */
    method Populate(start: int, len: nat)
      requires Valid() && NULL < start && len < par.Word() / 2
      requires DisjointFrom(pool, Block(start, len)) && Sum(pool) + len < par.Word() / 2
      modifies this
      ensures len >= par.MinBlock() ==>
                Valid() && State() == old(State()).Populate(Block(start, len - len % par.MinBlock()))
      ensures len < par.MinBlock() ==>
                State() == old(State()).(h := old(State()).h.(free := Insert(old(free), Block(start, 0))))
      ensures old(Aligned()) && len >= par.MinBlock() ==> Aligned()
    {
      hide Inv, Phased, Insert, Params.RoundUp, Params.RoundDown;
      ListedSizes();
      var b := Block(start, par.RoundUp(par.RoundDown(len)));
      RoundDownUp(len);
      if b.size > 0 {
        PopulateKeepsInv(par, State(), b);
        pool := pool + [b];
      }
      var list := InsertFree(free, b);
      free, freemem := list, freemem + b.size;
    }

    lemma RoundDownUp(len: nat)
      requires par.Ok() && len < par.Word() / 2
      ensures par.RoundUp(par.RoundDown(len)) == len - len % par.MinBlock() <= len
      ensures (len - len % par.MinBlock()) % par.MinBlock() == 0
      ensures len - len % par.MinBlock() == 0 <==> len < par.MinBlock()
    {
      par.RoundDownValue(len);
      if par.RoundDown(len) > 0 { par.RoundUpMultiple(par.RoundDown(len)); } else { par.RoundUpZero(); }
    }

    /** Rounding does not wrap, and the fit test is right for every block the heap may hold: see
        `RoundUpCoversIff` and `AcceptsIff`. */
    ghost predicate Representable(size: nat, align: nat) {
      && par.Ok() && 0 < size <= par.Word() - par.MinBlock()
      && par.RoundUp(size) + Max(align, par.MinBlock()) - 1 - par.MinBlock() <= par.Word() / 2
    }

    lemma SmallerRepresentable(size: nat, size': nat, align: nat)
      requires Representable(size', align) && 0 < size <= size'
      ensures Representable(size, align)
    {
      par.RoundUpMonotone(size, size');
    }

    /** The search loop of `alloc_memblock` over a list of free blocks. */
    method FindFit(list: seq<Block>, n: nat, mask: nat, offset: nat, ghost k: nat) returns (found: bool, i: nat, pre: nat)
      requires par.minLog <= k <= par.wordBits && mask == Pow2(k) - 1
      ensures found ==> i < |list| && pre == Skip(list[i], par.phys, Pow2(k), offset) && par.Accepts(list[i].size, pre, n)
      ensures !found ==> i == |list|
      ensures forall j :: 0 <= j < i ==> !par.Accepts(list[j].size, Skip(list[j], par.phys, Pow2(k), offset), n)
    {
      i := 0;
      while i < |list|
        invariant i <= |list|
        invariant forall j :: 0 <= j < i ==> !par.Accepts(list[j].size, Skip(list[j], par.phys, Pow2(k), offset), n)
      {
        var block := list[i];
        pre := And((offset - (block.start + par.phys)) % par.Word(), mask);
        var postSize := par.Signed(block.size - pre - n);
        par.PreSizeIsSkip(block, k, offset);
        if postSize >= 0 {
          return true, i, pre;
        }
        i := i + 1;
      }
      return false, i, 0;
    }

    /** For a representable request the fit test means that the block is large enough. */
    lemma AcceptsMeansFits(n: nat, k: nat, b: Block, offset: int)
      requires Valid() && b in free && n < par.Word() && n + Pow2(k) - 1 - par.MinBlock() <= par.Word() / 2
      ensures var pre := Skip(b, par.phys, Pow2(k), offset); par.Accepts(b.size, pre, n) <==> pre + n <= b.size
    {
      ListedSizes();
      par.AcceptsIff(n, Pow2(k));
    }

    /** `alloc_memblock`. `discards` cached blocks had to go, leaving heap `before`, from whose
        free-list entry `entry` the allocation was carved. */
    method AllocMemblock(size: nat, align: nat, offset: nat)
      returns (ptr: int, ghost discards: nat, ghost before: Heap, ghost entry: nat)
      requires Valid() && Representable(size, align) && IsPow2(align)
      modifies this
      ensures Valid() && discards <= |old(cache)| && before == Discards(old(State()), discards)
      ensures AllFull(old(State()), discards, size, align, offset)
      ensures ptr == NULL ==> State() == before && cache == [] && NoPlacement(before, size, align, offset)
      ensures ptr != NULL ==> NULL < ptr && Placed(before, State(), size, align, offset, ptr, entry)
      ensures old(Aligned()) && offset % par.MinBlock() == 0 ==> Aligned()
    {
      hide Inv, Phased, NoPlacement, Placed, Discards, Heap.Discard, Representable;
      ParametersOk();
      ghost var start := State();
      discards, before := 0, start;
      NoDiscards(start);
      while true
        invariant Valid() && State() == before && (old(Aligned()) ==> Aligned())
        invariant discards <= |start.cache| && before == Discards(start, discards)
        invariant AllFull(start, discards, size, align, offset)
        decreases |cache|
      {
        ptr, entry := AllocOnce(size, align, offset);
        if ptr != NULL {
          return;
        }
        DiscardsSnocMaybe(start, discards);
        assert AllFull(start, discards + 1, size, align, offset);
        var discarded := DiscardCache();
        if discarded == 0 {
          return;
        }
        discards, before := discards + 1, State();
      }
    }

    lemma NoDiscards(s: Heap)
      ensures Discards(s, 0) == s
    {
    }

    /** None of the first `k` heaps on the way of discarding had room for the request. */
    ghost predicate AllFull(s: Heap, k: nat, size: nat, align: nat, offset: int)
      requires par.Ok()
    {
      forall j :: 0 <= j < k && j <= |s.cache| ==> NoPlacement(Discards(s, j), size, align, offset)
    }

    /** One pass over the free list. */
    method AllocOnce(size: nat, align: nat, offset: nat) returns (ptr: int, ghost entry: nat)
      requires Valid() && Representable(size, align) && IsPow2(align)
      modifies this
      ensures Valid()
      ensures ptr == NULL ==> State() == old(State()) && NoPlacement(State(), size, align, offset)
      ensures ptr != NULL ==> NULL < ptr && Placed(old(State()), State(), size, align, offset, ptr, entry)
      ensures old(Aligned()) && offset % par.MinBlock() == 0 ==> Aligned()
      ensures ptr == NULL && old(Aligned()) ==> Aligned()
    {
      hide Placed, NoPlacement, Inv, Phased, Skip, Pow2, Or, Params.Accepts;
      ListedSizes();
      var n := par.RoundUp(size);
      var mask := Or(align - 1, par.MinBlock() - 1);
      ghost var k := MaskExponent(size, align);
      forall j | 0 <= j < |free|
        ensures var pre := Skip(free[j], par.phys, Pow2(k), offset); par.Accepts(free[j].size, pre, n) <==> pre + n <= free[j].size
      {
        AcceptsMeansFits(n, k, free[j], offset);
      }
      var found, i, pre := FindFit(free, n, mask, offset, k);
      if !found {
        NoneFits(size, align, offset, k);
        return NULL, 0;
      }
      FirstFits(size, align, offset, k, i, pre);
      AllocKeepsAligned(i, pre, n, k, offset);
      ptr, entry := free[i].start + pre, i;
      CarveEntry(i, pre, n);
    }

    lemma NoneFits(size: nat, align: nat, offset: nat, k: nat)
      requires Valid() && par.RoundUp(size) > 0 && Pow2(k) == Max(align, par.MinBlock())
      requires forall j :: 0 <= j < |free| ==> Skip(free[j], par.phys, Pow2(k), offset) + par.RoundUp(size) > free[j].size
      ensures NoPlacement(State(), size, align, offset)
    {
      var n := par.RoundUp(size);
      forall p ensures !Placement(free, par.phys, p, n, Pow2(k), offset) {
        if Placement(free, par.phys, p, n, Pow2(k), offset) {
          FirstFitIsLowest(free, |free|, par.phys, n, Pow2(k), offset, p);
        }
      }
    }

    lemma FirstFits(size: nat, align: nat, offset: nat, k: nat, i: nat, pre: nat)
      requires Valid() && par.RoundUp(size) > 0 && Pow2(k) == Max(align, par.MinBlock())
      requires i < |free| && pre == Skip(free[i], par.phys, Pow2(k), offset) && pre + par.RoundUp(size) <= free[i].size
      requires forall j :: 0 <= j < i ==> Skip(free[j], par.phys, Pow2(k), offset) + par.RoundUp(size) > free[j].size
      ensures NULL < free[i].start + pre
      ensures Placed(State(), State().Alloc(i, pre, par.RoundUp(size), par.MinBlock()), size, align, offset, free[i].start + pre, i)
    {
      ListedSizes();
      FreeAboveNull(i);
      hide Inv, Skip, Pow2, Canonical;
      FitIsLowest(free, i, par.phys, par.RoundUp(size), Pow2(k), offset);
    }

    lemma FreeAboveNull(i: nat)
      requires Valid() && i < |free|
      ensures free[i].start > NULL
    {
      assert free[i] in free && free[i].Has(free[i].start);
      assert Covers(free, free[i].start);
      MemberCovers(pool, free[i].start);
    }

    /** The lowest suitable address was carved out of entry `entry`. */
    ghost predicate Placed(s: Heap, t: Heap, size: nat, align: nat, offset: int, ptr: int, entry: nat)
      requires par.Ok()
    {
      var n, m := par.RoundUp(size), Max(align, par.MinBlock());
      && entry < |s.h.free| && s.h.free[entry].start <= ptr && ptr + n <= s.h.free[entry].End()
      && t == s.Alloc(entry, ptr - s.h.free[entry].start, n, par.MinBlock())
      && Placement(s.h.free, par.phys, ptr, n, m, offset)
      && forall p :: Placement(s.h.free, par.phys, p, n, m, offset) ==> ptr <= p
    }

    ghost predicate NoPlacement(s: Heap, size: nat, align: nat, offset: int)
      requires par.Ok()
    {
      forall p :: !Placement(s.h.free, par.phys, p, par.RoundUp(size), Max(align, par.MinBlock()), offset)
    }

    /** The rounded size and the combined alignment mask of a representable request. */
    lemma MaskExponent(size: nat, align: nat) returns (k: nat)
      requires par.Ok() && Representable(size, align) && IsPow2(align)
      ensures par.minLog <= k <= par.wordBits && Pow2(k) == Max(align, par.MinBlock())
      ensures Or(align - 1, par.MinBlock() - 1) == Pow2(k) - 1
      ensures var n := par.RoundUp(size); 0 < n < par.Word() && size <= n && n % par.MinBlock() == 0 && n + Pow2(k) - 1 - par.MinBlock() <= par.Word() / 2
    {
      hide Pow2, Or, Params.RoundUp;
      var j: nat :| align == Pow2(j);
      k := if j < par.minLog then par.minLog else j;
      if j < par.minLog { Pow2Monotone(j, par.minLog); } else { Pow2Monotone(par.minLog, j); }
      OrMasks(j, par.minLog);
      par.RoundUpCoversIff(size);
      par.HalfWord();
      MultipleAtLeast(par.RoundUp(size), par.MinBlock());
      Pow2Halves(par.wordBits + 1);
      if k > par.wordBits { Pow2Monotone(par.wordBits + 1, k); }
    }

    lemma ParametersOk()
      requires Valid()
      ensures par.Ok()
    {
    }

    lemma ListedSizes()
      requires Valid()
      ensures par.Ok() && Canonical(free) && forall b :: b in free ==> par.MinBlock() <= b.size < par.Word() / 2
    {
      LayoutTotal(State().h, par.MinBlock());
      forall b | b in free ensures b.size <= Sum(free) { SumMember(free, b); }
    }

    /** Split a free block into pre-block, allocation and post-block. */
    method CarveEntry(i: nat, pre: nat, n: nat)
      requires Valid() && n > 0 && n % par.MinBlock() == 0 && i < |free| && pre + n <= free[i].size
      modifies this
      ensures Valid() && State() == old(State()).Alloc(i, pre, n, par.MinBlock())
    {
      ghost var after := State().Alloc(i, pre, n, par.MinBlock());
      AllocKeepsInv(par, State(), i, pre, n);
      ghost var b := free[i];
      leaked := leaked + Dropped(b, pre, n, par.MinBlock());
      live := live + [Block(b.start + pre, n)];
      var list := SplitEntry(free, i, pre, n, par.MinBlock());
      free, freemem := list, freemem - n;
      assert State() == after;
    }

    lemma AllocKeepsAligned(i: nat, pre: nat, n: nat, k: nat, offset: nat)
      requires Valid() && n > 0 && n % par.MinBlock() == 0 && i < |free| && pre + n <= free[i].size
      requires par.minLog <= k && pre == Skip(free[i], par.phys, Pow2(k), offset)
      ensures Aligned() && offset % par.MinBlock() == 0 ==>
                Phased(State().Alloc(i, pre, n, par.MinBlock()).h, par.phys, par.MinBlock())
    {
      if Aligned() && offset % par.MinBlock() == 0 {
        var m, p := par.MinBlock(), free[i].start + pre;
        SkipSuits(free[i], par.phys, Pow2(k), offset);
        Pow2Divides(par.minLog, k);
        ModOfMultiple(p + par.phys - offset, m, Pow2(k));
        SumOfMultiples(p + par.phys - offset, offset, m);
        AllocKeepsPhased(State().h, i, pre, n, par.phys, m);
      }
    }

    lemma AllocSummary(s: Heap, k: nat, t: Heap, size: nat, align: nat, offset: int, ptr: int, entry: nat)
      requires Inv(par, s) && k <= |s.cache| && Representable(size, align) && IsPow2(align)
      requires Placed(Discards(s, k), t, size, align, offset, ptr, entry)
      ensures var b := Block(ptr, par.RoundUp(size)); size <= b.size && NewBlock(s, t, b)
    {
      assert par.Ok();
      var _ := MaskExponent(size, align);
      hide Inv, Discards, Placement, NewBlock, OnlyDiscarded, Undisturbed, OthersKept, Params.RoundUp, Carve, Dropped;
      var b := Block(ptr, par.RoundUp(size));
      var u := Discards(s, k);
      DiscardsKeepInv(par, s, k);
      DiscardsDisturbNoOther(par, s, k, b);
      AllocIsNew(par, u, entry, ptr - u.h.free[entry].start, b.size);
      NewAfterDiscards(s, u, t, b);
    }

    lemma PlacedAligned(s: Heap, t: Heap, size: nat, align: nat, offset: int, ptr: int, entry: nat)
      requires par.Ok() && IsPow2(align) && align > 0 && Placed(s, t, size, align, offset, ptr, entry)
      ensures (ptr + par.phys - offset) % align == 0
    {
      StrongerAlignment(ptr + par.phys - offset, align);
    }

    lemma PlacedPool(s: Heap, t: Heap, size: nat, align: nat, offset: int, ptr: int, entry: nat)
      requires par.Ok() && Placed(s, t, size, align, offset, ptr, entry)
      ensures t.h.pool == s.h.pool
    {
    }

    lemma StrongerAlignment(x: int, align: nat)
      requires IsPow2(align) && x % Max(align, par.MinBlock()) == 0
      ensures align > 0 && x % align == 0
    {
      var j: nat :| align == Pow2(j);
      if j < par.minLog {
        Pow2Divides(j, par.minLog);
        Pow2Monotone(j, par.minLog);
        ModOfMultiple(x, align, par.MinBlock());
      } else {
        Pow2Monotone(par.minLog, j);
      }
    }

    /** `malloc_dma_offset`: what a caller of `alloc_memblock` may rely on. */
    method MallocDma(size: nat, align: nat, offset: nat) returns (ptr: int, ghost discards: nat, ghost entry: nat)
      requires Valid() && Representable(size, align) && IsPow2(align) && align > 0
      modifies this
      ensures Valid() && NULL <= ptr && pool == old(pool)
      ensures Allocated(old(State()), discards, State(), size, align, offset, ptr, entry)
      ensures ptr == NULL ==> OnlyDiscarded(old(State()), State())
      ensures ptr != NULL ==>
                && NewBlock(old(State()), State(), Block(ptr, par.RoundUp(size)))
                && size <= par.RoundUp(size) && (ptr + par.phys - offset) % align == 0
      ensures old(Aligned()) && offset % par.MinBlock() == 0 ==> Aligned()
    {
      hide Inv, Phased, NoPlacement, Placed, Discards, OnlyDiscarded, NewBlock, Representable;
      ParametersOk();
      ghost var s := State();
      ghost var before;
      ptr, discards, before, entry := AllocMemblock(size, align, offset);
      DiscardsSurvive(par, s, discards);
      DiscardsSnocMaybe(s, discards);
      if ptr == NULL {
        DiscardsDisturbNoOther(par, s, discards, Block(0, 0));
      } else {
        AllocSummary(s, discards, State(), size, align, offset, ptr, entry);
        PlacedAligned(before, State(), size, align, offset, ptr, entry);
        PlacedPool(before, State(), size, align, offset, ptr, entry);
      }
    }

    /** The heap `t` after a request in heap `s`: cached blocks went one by one while nothing fitted;
        then the lowest suitable address was taken, or nothing was left to discard. */
    ghost predicate Allocated(s: Heap, discards: nat, t: Heap, size: nat, align: nat, offset: int, ptr: int, entry: nat)
      requires par.Ok()
    {
      && discards <= |s.cache| && AllFull(s, discards, size, align, offset)
      && if ptr == NULL then t == Discards(s, discards) && t.cache == [] && NoPlacement(t, size, align, offset)
         else Placed(Discards(s, discards), t, size, align, offset, ptr, entry)
    }

    /** `ptr` was returned by `malloc` or `realloc` for `size` bytes and has not been freed. */
    ghost predicate Autosized(ptr: int, size: nat) reads this {
      par.Ok() && AutosizedIn(par, State(), ptr, size)
    }

    /** The first half of `realloc`: allocate a block and record its length. */
    method AllocAutosized(size: nat) returns (ptr: int, ghost discards: nat, ghost entry: nat)
      requires Valid() && size > 0 && Representable(size + par.header, 1)
      modifies this
      ensures Valid() && (old(Aligned()) ==> Aligned()) && pool == old(pool)
      ensures AutoAllocated(old(State()), discards, State(), size, ptr, entry)
      ensures ptr == NULL ==> OnlyDiscarded(old(State()), State())
      ensures ptr != NULL ==> AutosizedIn(par, State(), ptr, size) && NewBlock(old(State()), State(), AutosizedBlock(par, ptr, size))
    {
      hide Inv, Phased, NewBlock, OnlyDiscarded, Representable, Allocated, AutoAllocated;
      ParametersOk();
      var total := size + par.header;
      ghost var s := State();
      assert IsPow2(1) by { assert Pow2(0) == 1; }
      var block;
      block, discards, entry := MallocDma(total, 1, 0);
      NoBlock(s, discards, State(), size, entry);
      if block == NULL {
        return NULL, discards, entry;
      }
      ghost var t := State();
      ptr := block + par.header;
      RecordLength(s, discards, t, size, ptr, entry);
      HeaderSummary(par, s, t, ptr, size);
      headers := headers[block := total];
      assert State() == SetHeader(t, block, total);
    }

    lemma NoBlock(s: Heap, discards: nat, t: Heap, size: nat, entry: nat)
      requires par.Ok()
      ensures Allocated(s, discards, t, size + par.header, 1, 0, NULL, entry) ==> AutoAllocated(s, discards, t, size, NULL, entry)
    {
    }

    lemma RecordLength(s: Heap, discards: nat, t: Heap, size: nat, ptr: int, entry: nat)
      requires par.Ok() && NULL < ptr - par.header
      requires Allocated(s, discards, t, size + par.header, 1, 0, ptr - par.header, entry)
      ensures AutoAllocated(s, discards, SetHeader(t, ptr - par.header, size + par.header), size, ptr, entry)
    {
      hide AllFull, Placement;
      var u := SetHeader(t, ptr - par.header, size + par.header);
      assert u.(headers := Discards(s, discards).headers) == t;
    }

    /** The heap `t` after looking for `size` bytes and a length word. */
    ghost predicate AutoAllocated(s: Heap, discards: nat, t: Heap, size: nat, ptr: int, entry: nat)
      requires par.Ok()
    {
      if ptr == NULL then Allocated(s, discards, t, size + par.header, 1, 0, NULL, entry)
      else
        && discards <= |s.cache| && ptr - par.header != NULL
        && var before := t.(headers := Discards(s, discards).headers);
           && Allocated(s, discards, before, size + par.header, 1, 0, ptr - par.header, entry)
           && t == SetHeader(before, ptr - par.header, size + par.header)
    }

    /** The second half of `realloc`: move the data across, then free the old block. */
    method ReleaseAutosized(oldPtr: int, ghost oldSize: nat, newPtr: int, newSize: nat)
      requires Valid() && Autosized(oldPtr, oldSize)
      requires newSize > 0 ==> Autosized(newPtr, newSize) && newPtr != oldPtr
      modifies this
      ensures Valid() && (old(Aligned()) ==> Aligned()) && pool == old(pool)
      ensures Moved(par, old(State()), State(), oldPtr, oldSize, newPtr, newSize)
      ensures State() == Released(par, old(State()), oldPtr, oldSize, newPtr, newSize)
    {
      var block := oldPtr - par.header;
      var total := headers[block];
      var count := Min(total - par.header, newSize);
      assert count == Min(oldSize, newSize);
      var copied := Copy(mem, newPtr, oldPtr, count);
      ghost var s, t := State(), State().(mem := copied);
      ghost var u := t.Free(AutosizedBlock(par, oldPtr, oldSize));
      ReleaseSummary(par, s, t, u, oldPtr, oldSize, newPtr, newSize);
      mem := copied;
      assert State() == t;
      FreeMemblock(block, total);
      assert State() == u;
    }

    /** `realloc` */
    method Realloc(oldPtr: int, newSize: nat, ghost oldSize: nat)
      returns (newPtr: int, ghost discards: nat, ghost entry: nat, ghost mid: Heap)
      requires Valid() && (oldPtr == NULL || oldPtr == NOWHERE || Autosized(oldPtr, oldSize))
      requires newSize > 0 ==> Representable(newSize + par.header, 1)
      modifies this
      ensures Valid() && (old(Aligned()) ==> Aligned()) && pool == old(pool)
      ensures ReallocSteps(old(State()), discards, mid, State(), oldPtr, oldSize, newPtr, newSize, entry)
      ensures newPtr == NULL ==> OnlyDiscarded(old(State()), State())
      ensures newPtr != NULL ==>
                Reallocated(par, old(State()), State(), oldPtr != NULL && oldPtr != NOWHERE, oldPtr, oldSize, newPtr, newSize)
    {
      hide Inv, AutoAllocated, Reallocated, Moved, Released, Phased;
      ParametersOk();
      ghost var s := State();
      newPtr, discards, entry := NOWHERE, 0, 0;
      if newSize != 0 {
        newPtr, discards, entry := AllocAutosized(newSize);
        if newPtr == NULL {
          return newPtr, discards, entry, State();
        }
      }
      mid := State();
      ghost var hasOld := oldPtr != NULL && oldPtr != NOWHERE;
      if oldPtr != NULL && oldPtr != NOWHERE {
        StillAutosized(par, s, mid, oldPtr, oldSize, newPtr, newSize);
        ReleaseAutosized(oldPtr, oldSize, newPtr, newSize);
      }
      ReallocatedSummary(par, s, mid, State(), hasOld, oldPtr, oldSize, newPtr, newSize);
    }

    /** What `realloc` does, step by step: nothing is allocated for size zero, for which the reserved
        pointer is returned; a failed allocation ends it; and only an allocated old block is released. */
    ghost predicate ReallocSteps(s: Heap, discards: nat, mid: Heap, t: Heap, oldPtr: int, oldSize: nat, newPtr: int, newSize: nat, entry: nat)
      requires par.Ok()
    {
      && (if newSize == 0 then newPtr == NOWHERE && mid == s else AutoAllocated(s, discards, mid, newSize, newPtr, entry))
      && t == if newPtr == NULL || oldPtr == NULL || oldPtr == NOWHERE then mid else Released(par, mid, oldPtr, oldSize, newPtr, newSize)
    }

    /** `malloc` */
    method Malloc(size: nat) returns (ptr: int, ghost discards: nat, ghost entry: nat)
      requires Valid() && (size > 0 ==> Representable(size + par.header, 1))
      modifies this
      ensures Valid() && (old(Aligned()) ==> Aligned()) && pool == old(pool)
      ensures if size == 0 then ptr == NOWHERE && State() == old(State()) else AutoAllocated(old(State()), discards, State(), size, ptr, entry)
      ensures ptr == NULL ==> OnlyDiscarded(old(State()), State())
      ensures ptr != NULL ==> Reallocated(par, old(State()), State(), false, NULL, 0, ptr, size)
    {
      ghost var mid;
      ptr, discards, entry, mid := Realloc(NULL, size, 0);
    }

    /** `free` */
    method Free(ptr: int, ghost size: nat)
      requires Valid() && (ptr == NULL || ptr == NOWHERE || Autosized(ptr, size))
      modifies this
      ensures Valid() && (old(Aligned()) ==> Aligned()) && pool == old(pool)
      ensures State() == if ptr == NULL || ptr == NOWHERE then old(State()) else Released(par, old(State()), ptr, size, NOWHERE, 0)
      ensures Reallocated(par, old(State()), State(), ptr != NULL && ptr != NOWHERE, ptr, size, NOWHERE, 0)
    {
      var p;
      ghost var discards, entry, mid;
      p, discards, entry, mid := Realloc(ptr, 0, size);
    }
  }
}
