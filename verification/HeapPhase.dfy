/** Leakage: while every requested offset is a multiple of the minimum block size, bytes
    can be lost only in the misaligned fringes of a donated region. */
module HeapPhase {
  import opened Bits
  import opened FreeList
  import opened HeapLayout

  /** Physical distance of `a` above a multiple of `m`. */
  function Phase(a: int, phys: int, m: nat): (r: nat)
    requires m > 0
    ensures r < m
  {
    (a + phys) % m
  }

  lemma PhaseAdd(a: int, n: int, phys: int, m: nat)
    requires m > 0
    ensures n % m == 0 ==> Phase(a + n, phys, m) == Phase(a, phys, m)
    ensures Phase(a, phys, m) == 0 && 0 <= n < m ==> Phase(a + n, phys, m) == n
    ensures Phase(a, phys, m) == 0 && 0 < n <= m ==> Phase(a - n, phys, m) == m - n
  {
    var q, r := (a + phys) / m, Phase(a, phys, m);
    if n % m == 0 {
      assert a + n + phys == (q + n / m) * m + r by { assert (q + n / m) * m == q * m + (n / m) * m; }
      DivUnique(a + n + phys, m, q + n / m, r);
    }
    if r == 0 && 0 <= n < m { DivUnique(a + n + phys, m, q, n); }
    if r == 0 && 0 < n <= m {
      assert a - n + phys == (q - 1) * m + (m - n) by { assert (q - 1) * m == q * m - m; }
      DivUnique(a - n + phys, m, q - 1, m - n);
    }
  }

  /** The `m`-aligned cell holding `a` sticks out of region `r`. */
  ghost predicate Fringe(r: Block, a: int, phys: int, m: nat)
    requires m > 0
  {
    var cell := a - Phase(a, phys, m);
    r.Has(a) && (cell < r.start || r.End() < cell + m)
  }

  ghost predicate InFringe(pool: seq<Block>, a: int, phys: int, m: nat)
    requires m > 0
  {
    exists r :: r in pool && Fringe(r, a, phys, m)
  }

  ghost predicate StartOk(pool: seq<Block>, a: int, phys: int, m: nat)
    requires m > 0
  {
    Phase(a, phys, m) == 0 || exists r :: r in pool && r.start == a
  }

  ghost predicate EndOk(pool: seq<Block>, a: int, phys: int, m: nat)
    requires m > 0
  {
    Phase(a, phys, m) == 0 || exists r :: r in pool && r.End() == a
  }

  ghost predicate BoundsOk(pool: seq<Block>, f: seq<Block>, phys: int, m: nat)
    requires m > 0
  {
    forall b :: b in f ==> StartOk(pool, b.start, phys, m) && EndOk(pool, b.End(), phys, m)
  }

  /** Regions and allocations are whole numbers of cells, allocations and interior free
      boundaries are cell-aligned, and only fringe bytes have been leaked. */
  ghost predicate Phased(h: Layout, phys: int, m: nat)
    requires m > 0
  {
    && (forall r :: r in h.pool ==> r.size > 0 && r.size % m == 0)
    && (forall b :: b in h.live ==> Phase(b.start, phys, m) == 0 && b.size % m == 0)
    && BoundsOk(h.pool, h.free, phys, m)
    && (forall a :: a in h.leaked ==> InFringe(h.pool, a, phys, m))
  }

  lemma MultipleAtLeast(n: nat, m: nat)
    requires m > 0 && n > 0 && n % m == 0
    ensures n >= m
  {
    if n < m { DivUnique(n, m, 0, n); }
  }

  lemma DroppedHead(h: Layout, b: Block, pre: nat, phys: int, m: nat, a: int)
    requires m > 0 && Phased(h, phys, m) && b in h.free && pre < m
    requires Phase(b.start + pre, phys, m) == 0 && b.start <= a < b.start + pre
    ensures InFringe(h.pool, a, phys, m)
  {
    PhaseAdd(b.start + pre, pre, phys, m);
    assert b.start + pre - pre == b.start;
    var r :| r in h.pool && r.start == b.start;
    MultipleAtLeast(r.size, m);
    PhaseAdd(b.start + pre, b.start + pre - a, phys, m);
    assert Fringe(r, a, phys, m);
  }

  lemma DroppedTail(h: Layout, b: Block, post: nat, phys: int, m: nat, a: int)
    requires m > 0 && Phased(h, phys, m) && b in h.free && post < m
    requires Phase(b.End() - post, phys, m) == 0 && b.End() - post <= a < b.End()
    ensures InFringe(h.pool, a, phys, m)
  {
    var e := b.End() - post;
    PhaseAdd(e, post, phys, m);
    var r :| r in h.pool && r.End() == b.End();
    MultipleAtLeast(r.size, m);
    PhaseAdd(e, a - e, phys, m);
    assert Fringe(r, a, phys, m);
  }

  lemma AllocKeepsPhased(h: Layout, i: nat, pre: nat, n: nat, phys: int, m: nat)
    requires m > 0 && Phased(h, phys, m) && n > 0 && n % m == 0
    requires i < |h.free| && pre + n <= h.free[i].size
    requires Phase(h.free[i].start + pre, phys, m) == 0
    ensures Phased(h.Alloc(i, pre, n, m), phys, m)
  {
    var b := h.free[i];
    var h' := h.Alloc(i, pre, n, m);
    var p := b.start + pre;
    PhaseAdd(p, n, phys, m);
    forall a | a in Dropped(b, pre, n, m) ensures InFringe(h'.pool, a, phys, m) {
      if pre < m && b.start <= a < p {
        DroppedHead(h, b, pre, phys, m, a);
      } else {
        DroppedTail(h, b, b.size - pre - n, phys, m, a);
      }
    }
    forall c | c in h'.free ensures StartOk(h'.pool, c.start, phys, m) && EndOk(h'.pool, c.End(), phys, m) {
      if c !in h.free {
        assert c == Block(b.start, pre) || c == Block(p + n, b.size - pre - n);
      }
    }
  }

  /** A merged list has no boundaries that its parts did not have. */
  lemma {:induction false} InsertBounds(f: seq<Block>, b: Block, c: Block)
    requires c in Insert(f, b)
    ensures c.start == b.start || exists d :: d in f && d.start == c.start
    ensures c.End() == b.End() || exists d :: d in f && d.End() == c.End()
    decreases |f|
  {
    if f != [] {
      assert f[0] in f;
      if b.End() < f[0].start || b.End() == f[0].start {
      } else if f[0].End() == b.start {
        InsertBounds(f[1..], Block(f[0].start, f[0].size + b.size), c);
      } else if c != f[0] {
        InsertBounds(f[1..], b, c);
      }
    }
  }

  lemma InsertKeepsBounds(pool: seq<Block>, f: seq<Block>, b: Block, phys: int, m: nat)
    requires m > 0 && BoundsOk(pool, f, phys, m)
    requires StartOk(pool, b.start, phys, m) && EndOk(pool, b.End(), phys, m)
    ensures BoundsOk(pool, Insert(f, b), phys, m)
  {
    forall c | c in Insert(f, b) ensures StartOk(pool, c.start, phys, m) && EndOk(pool, c.End(), phys, m) {
      InsertBounds(f, b, c);
    }
  }

  lemma FreeKeepsPhased(h: Layout, b: Block, phys: int, m: nat)
    requires m > 0 && Phased(h, phys, m) && b in h.live
    ensures Phased(h.Free(b), phys, m)
  {
    PhaseAdd(b.start, b.size, phys, m);
    InsertKeepsBounds(h.pool, h.free, b, phys, m);
    RemoveMembers(h.live, b);
  }

  lemma PopulateKeepsPhased(h: Layout, b: Block, phys: int, m: nat)
    requires m > 0 && Phased(h, phys, m) && b.size > 0 && b.size % m == 0
    ensures Phased(h.Populate(b), phys, m)
  {
    var pool := h.pool + [b];
    assert b in pool;
    assert forall r :: r in h.pool ==> r in pool;
    forall c | c in h.free ensures StartOk(pool, c.start, phys, m) && EndOk(pool, c.End(), phys, m) {
    }
    InsertKeepsBounds(pool, h.free, b, phys, m);
    forall a | a in h.leaked ensures InFringe(pool, a, phys, m) {
      var r :| r in h.pool && Fringe(r, a, phys, m);
      assert r in pool;
    }
  }

  /** Bytes from phase `p` up to the next cell boundary. */
  function Above(p: nat, m: nat): nat
    requires p < m
  {
    if p == 0 then 0 else m - p
  }

  /** The fringe bytes of one region. */
  function FringeBytes(r: Block, phys: int, m: nat): set<int>
    requires m > 0
  {
    Span(r.start, Above(Phase(r.start, phys, m), m)) +
    Span(r.End() - Phase(r.End(), phys, m), Phase(r.End(), phys, m))
  }

  lemma FringeIsInBytes(r: Block, a: int, phys: int, m: nat)
    requires m > 0 && Fringe(r, a, phys, m)
    ensures a in FringeBytes(r, phys, m)
  {
    var cell := a - Phase(a, phys, m);
    assert Phase(cell, phys, m) == 0 by { DivUnique(cell + phys, m, (a + phys) / m, 0); }
    if cell < r.start {
      PhaseAdd(cell, r.start - cell, phys, m);
    } else {
      PhaseAdd(cell, r.End() - cell, phys, m);
    }
  }

  lemma FringeSize(r: Block, phys: int, m: nat)
    requires m > 0 && r.size % m == 0
    ensures |FringeBytes(r, phys, m)| <= m
  {
    hide Phase, Span;
    PhaseAdd(r.start, r.size, phys, m);
    var s := Phase(r.start, phys, m);
    SpanSize(r.start, Above(s, m));
    SpanSize(r.End() - s, s);
    UnionSize(Span(r.start, Above(s, m)), Span(r.End() - s, s));
  }

  lemma UnionSize(x: set<int>, y: set<int>)
    ensures |x + y| <= |x| + |y|
  {
    assert x + y == x + (y - x);
    assert |y| == |y - x| + |y * x|;
  }

  function AllFringes(pool: seq<Block>, phys: int, m: nat): set<int>
    requires m > 0
  {
    if pool == [] then {} else FringeBytes(pool[0], phys, m) + AllFringes(pool[1..], phys, m)
  }

  lemma MulStep(n: int, m: int)
    ensures n * m == m + (n - 1) * m
  {
  }

  lemma {:induction false} AllFringesSize(pool: seq<Block>, phys: int, m: nat)
    requires m > 0 && forall r :: r in pool ==> r.size % m == 0
    ensures |AllFringes(pool, phys, m)| <= |pool| * m
  {
    if pool != [] {
      assert pool[0] in pool;
      var x, y := FringeBytes(pool[0], phys, m), AllFringes(pool[1..], phys, m);
      assert |x| <= m by { FringeSize(pool[0], phys, m); }
      assert |y| <= (|pool| - 1) * m by { AllFringesSize(pool[1..], phys, m); }
      UnionSize(x, y);
      MulStep(|pool|, m);
    }
  }

  lemma {:induction false} FringeBytesIncluded(pool: seq<Block>, r: Block, phys: int, m: nat)
    requires m > 0 && r in pool
    ensures FringeBytes(r, phys, m) <= AllFringes(pool, phys, m)
  {
    if r != pool[0] { FringeBytesIncluded(pool[1..], r, phys, m); }
  }

  lemma SubsetSize(x: set<int>, y: set<int>)
    requires x <= y
    ensures |x| <= |y|
  {
    assert y == x + (y - x);
  }

  /** At most one minimum block is ever leaked per donated region. */
  lemma LeakBound(h: Layout, phys: int, m: nat)
    requires m > 0 && Phased(h, phys, m)
    ensures |h.leaked| <= |h.pool| * m
  {
    forall a | a in h.leaked ensures a in AllFringes(h.pool, phys, m) {
      var r :| r in h.pool && Fringe(r, a, phys, m);
      FringeIsInBytes(r, a, phys, m);
      FringeBytesIncluded(h.pool, r, phys, m);
    }
    AllFringesSize(h.pool, phys, m);
    SubsetSize(h.leaked, AllFringes(h.pool, phys, m));
  }
}
