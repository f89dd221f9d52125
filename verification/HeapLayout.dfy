/** The global invariant of the heap, on values, and what each allocator step does to it. */
module HeapLayout {
  import opened Bits
  import opened FreeList

  /** Where the heap stands: donated regions, free list, live allocations and leaked bytes. */
  datatype Layout = Layout(pool: seq<Block>, free: seq<Block>, live: seq<Block>, leaked: set<int>) {

    /** The free list is canonical with blocks of at least `min` bytes, allocations are
        non-empty and disjoint, and free, live and leaked bytes partition the pool. */
    ghost predicate Sound(min: nat) {
      && PairwiseDisjoint(pool)
      && Canonical(free)
      && (forall b :: b in free ==> b.size >= min)
      && PairwiseDisjoint(live)
      && (forall b :: b in live ==> b.size > 0)
      && (forall a :: Covers(pool, a) <==> Covers(free, a) || Covers(live, a) || a in leaked)
      && (forall a :: Covers(free, a) ==> !Covers(live, a))
      && (forall a :: a in leaked ==> !Covers(free, a) && !Covers(live, a))
    }

    function Alloc(i: nat, pre: nat, n: nat, min: nat): Layout
      requires i < |free| && pre + n <= free[i].size
    {
      Layout(pool, Carve(free, i, pre, n, min), live + [Block(free[i].start + pre, n)],
             leaked + Dropped(free[i], pre, n, min))
    }

    function Free(b: Block): Layout {
      Layout(pool, Insert(free, b), Remove(live, b), leaked)
    }

    function Populate(b: Block): Layout {
      Layout(pool + [b], Insert(free, b), live, leaked)
    }
  }

  /** The donated bytes are exactly the free, the live and the leaked ones. */
  lemma LayoutTotal(h: Layout, min: nat)
    requires h.Sound(min)
    ensures Sum(h.pool) == Sum(h.free) + Sum(h.live) + |h.leaked|
  {
    PartitionSize(h.pool, h.free, h.live, h.leaked);
  }

  lemma {:induction false} DisjointFromByAddress(f: seq<Block>, b: Block)
    requires b.size > 0 && forall c :: c in f ==> c.size > 0
    requires forall a :: b.Has(a) ==> !Covers(f, a)
    ensures DisjointFrom(f, b)
  {
    forall i | 0 <= i < |f| ensures Disjoint(f[i], b) {
      var a := Max(f[i].start, b.start);
      assert f[i] in f;
      assert f[i].Has(a) && b.Has(a) ==> Covers(f, a);
    }
  }

  lemma LiveDisjointFromFree(h: Layout, min: nat, b: Block)
    requires h.Sound(min) && b in h.live
    ensures DisjointFrom(h.free, b)
  {
    forall a | b.Has(a) ensures !Covers(h.free, a) { MemberCovers(h.live, a); }
    DisjointFromByAddress(h.free, b);
  }

  lemma AppendCovers(f: seq<Block>, b: Block, a: int)
    ensures Covers(f + [b], a) <==> Covers(f, a) || b.Has(a)
  {
    ConcatCovers(f, [b], a);
    assert [b] + [] == [b];
    ConsCovers(b, [], a);
  }

  lemma AppendDisjoint(f: seq<Block>, b: Block)
    requires PairwiseDisjoint(f) && DisjointFrom(f, b)
    ensures PairwiseDisjoint(f + [b])
  {
  }

  lemma AllocKeepsSound(h: Layout, i: nat, pre: nat, n: nat, min: nat)
    requires h.Sound(min) && min > 0 && n > 0
    requires i < |h.free| && pre + n <= h.free[i].size
    ensures h.Alloc(i, pre, n, min).Sound(min)
  {
    var h' := h.Alloc(i, pre, n, min);
    var b := Block(h.free[i].start + pre, n);
    var d := Dropped(h.free[i], pre, n, min);
    CarveCanonical(h.free, i, pre, n, min);
    CarveKeepsMinimum(h.free, i, pre, n, min);
    forall a ensures Covers(h'.free, a) <==> Covers(h.free, a) && !b.Has(a) && a !in d
             ensures Covers(h'.live, a) <==> Covers(h.live, a) || b.Has(a)
             ensures b.Has(a) || a in d ==> Covers(h.free, a)
             ensures !(b.Has(a) && a in d)
    {
      CarveCovers(h.free, i, pre, n, min, a);
      AppendCovers(h.live, b, a);
      assert b.Has(a) || a in d ==> h.free[i].Has(a);
    }
    DisjointFromByAddress(h.live, b);
    AppendDisjoint(h.live, b);
  }

  lemma FreeKeepsSound(h: Layout, b: Block, min: nat)
    requires h.Sound(min) && b in h.live && b.size >= min
    ensures h.Free(b).Sound(min)
  {
    var h' := h.Free(b);
    LiveDisjointFromFree(h, min, b);
    InsertCorrect(h.free, b);
    InsertMinimum(h.free, b, min);
    RemoveDisjoint(h.live, b);
    RemoveMembers(h.live, b);
    forall a ensures Covers(h'.live, a) <==> Covers(h.live, a) && !b.Has(a)
             ensures b.Has(a) ==> Covers(h.live, a)
    {
      RemoveCovers(h.live, b, a);
      MemberCovers(h.live, a);
    }
  }

  lemma {:induction false} InsertMinimum(f: seq<Block>, b: Block, min: nat)
    requires b.size >= min && forall c :: c in f ==> c.size >= min
    ensures forall c :: c in Insert(f, b) ==> c.size >= min
    decreases |f|
  {
    if f != [] {
      assert f[0] in f;
      if f[0].End() == b.start { InsertMinimum(f[1..], Block(f[0].start, f[0].size + b.size), min); }
      InsertMinimum(f[1..], b, min);
    }
  }

  lemma PopulateKeepsSound(h: Layout, b: Block, min: nat)
    requires h.Sound(min) && b.size >= min && b.size > 0
    requires DisjointFrom(h.pool, b)
    ensures h.Populate(b).Sound(min)
  {
    var h' := h.Populate(b);
    forall a ensures b.Has(a) ==> !Covers(h.pool, a)
             ensures Covers(h'.pool, a) <==> Covers(h.pool, a) || b.Has(a)
    {
      AppendCovers(h.pool, b, a);
    }
    DisjointFromByAddress(h.free, b);
    InsertCorrect(h.free, b);
    InsertMinimum(h.free, b, min);
    AppendDisjoint(h.pool, b);
  }
}
