/** The allocator's free list as a value: what it covers, and its canonical form. */
module FreeList {

  /** A half-open range of addresses `[start, start + size)`. */
  datatype Block = Block(start: int, size: nat) {
    function End(): int { start + size }

    predicate Has(a: int) { start <= a < start + size }
  }

  /** Some listed block contains address `a`. */
  ghost predicate Covers(f: seq<Block>, a: int) {
    exists i :: 0 <= i < |f| && f[i].Has(a)
  }

  /** Address-ordered, no empty block, and a gap between any two neighbours. */
  ghost predicate Canonical(f: seq<Block>) {
    && (forall i :: 0 <= i < |f| ==> f[i].size > 0)
    && (forall i, j :: 0 <= i < j < |f| ==> f[i].End() < f[j].start)
  }

  predicate Disjoint(b: Block, c: Block) {
    b.End() <= c.start || c.End() <= b.start
  }

  ghost predicate DisjointFrom(f: seq<Block>, b: Block) {
    forall i :: 0 <= i < |f| ==> Disjoint(f[i], b)
  }

  ghost predicate PairwiseDisjoint(f: seq<Block>) {
    forall i, j :: 0 <= i < j < |f| ==> Disjoint(f[i], f[j])
  }

  function Sum(f: seq<Block>): nat {
    if f == [] then 0 else f[0].size + Sum(f[1..])
  }

  lemma {:induction false} SumConcat(f: seq<Block>, g: seq<Block>)
    ensures Sum(f + g) == Sum(f) + Sum(g)
  {
    if f == [] {
      assert f + g == g;
    } else {
      assert (f + g)[1..] == f[1..] + g;
      SumConcat(f[1..], g);
    }
  }

  lemma {:induction false} SumMember(f: seq<Block>, b: Block)
    requires b in f
    ensures b.size <= Sum(f)
  {
    if f[0] != b { SumMember(f[1..], b); }
  }

  /** Canonical lists are determined by the addresses they cover. */
  lemma {:induction false} CanonicalUnique(f: seq<Block>, g: seq<Block>)
    requires Canonical(f) && Canonical(g)
    requires forall a :: Covers(f, a) <==> Covers(g, a)
    ensures f == g
  {
    assert f != [] ==> f[0].Has(f[0].start) && Covers(f, f[0].start);
    assert g != [] ==> g[0].Has(g[0].start) && Covers(g, g[0].start);
    if f != [] {
      HeadEndUncovered(f);
      HeadEndUncovered(g);
      assert Covers(g, f[0].start) && Covers(f, g[0].start);
      assert f[0].start == g[0].start;
      var x, y := f[0], g[0];
      assert x.size < y.size ==> y.Has(x.End()) && Covers(g, x.End());
      assert y.size < x.size ==> x.Has(y.End()) && Covers(f, y.End());
      forall a ensures Covers(f[1..], a) <==> Covers(g[1..], a) {
        TailCovers(f, a);
        TailCovers(g, a);
      }
      CanonicalUnique(f[1..], g[1..]);
    }
  }

  lemma HeadEndUncovered(f: seq<Block>)
    requires Canonical(f) && f != []
    ensures !Covers(f, f[0].End())
  {
  }

  lemma TailCovers(f: seq<Block>, a: int)
    requires Canonical(f) && f != []
    ensures Covers(f[1..], a) <==> Covers(f, a) && !f[0].Has(a)
  {
    if Covers(f[1..], a) {
      var i :| 0 <= i < |f[1..]| && f[1..][i].Has(a);
      assert f[i + 1].Has(a);
    }
    if Covers(f, a) && !f[0].Has(a) {
      var i :| 0 <= i < |f| && f[i].Has(a);
      assert f[1..][i - 1].Has(a);
    }
  }

  /** In a coalesced list a covered, non-empty range lies inside one listed block. */
  lemma RangeInOneBlock(f: seq<Block>, p: int, n: nat) returns (i: nat)
    requires Canonical(f) && n > 0
    requires forall a :: p <= a < p + n ==> Covers(f, a)
    ensures i < |f| && f[i].start <= p && p + n <= f[i].End()
  {
    assert Covers(f, p);
    i :| 0 <= i < |f| && f[i].Has(p);
    assert f[i].End() < p + n ==> Covers(f, f[i].End());
  }

  /** Insert a block into a canonical list, merging it with the neighbours it touches. */
  function Insert(f: seq<Block>, b: Block): (r: seq<Block>)
    ensures r != []
    decreases |f|
  {
    if f == [] then [b]
    else if b.End() < f[0].start then [b] + f
    else if b.End() == f[0].start then [Block(b.start, b.size + f[0].size)] + f[1..]
    else if f[0].End() == b.start then Insert(f[1..], Block(f[0].start, f[0].size + b.size))
    else [f[0]] + Insert(f[1..], b)
  }

  lemma {:induction false} InsertCanonical(f: seq<Block>, b: Block)
    requires Canonical(f) && b.size > 0 && DisjointFrom(f, b)
    ensures Canonical(Insert(f, b))
    ensures Insert(f, b)[0].start == if f == [] || b.start < f[0].start then b.start else f[0].start
    decreases |f|
  {
    hide Canonical, DisjointFrom;
    if f == [] {
      SingleCanonical(b);
    } else {
      HeadFacts(f, b);
      if b.End() < f[0].start {
        ConsCanonical(b, f);
      } else if b.End() == f[0].start {
        ConsCanonical(Block(b.start, b.size + f[0].size), f[1..]);
      } else if f[0].End() == b.start {
        InsertCanonical(f[1..], Block(f[0].start, f[0].size + b.size));
      } else {
        InsertCanonical(f[1..], b);
        ConsCanonical(f[0], Insert(f[1..], b));
      }
    }
  }

  lemma SingleCanonical(b: Block)
    requires b.size > 0
    ensures Canonical([b])
  {
  }

  lemma HeadFacts(f: seq<Block>, b: Block)
    requires Canonical(f) && f != [] && b.size > 0 && DisjointFrom(f, b)
    ensures Canonical(f[1..]) && f[0].size > 0 && (|f| > 1 ==> f[0].End() < f[1].start)
    ensures Disjoint(f[0], b) && DisjointFrom(f[1..], b)
    ensures f[0].End() == b.start ==> DisjointFrom(f[1..], Block(f[0].start, f[0].size + b.size))
  {
    assert forall i :: 0 <= i < |f[1..]| ==> f[1..][i] == f[i + 1] && Disjoint(f[i + 1], b);
  }

  lemma ConsCanonical(b: Block, g: seq<Block>)
    requires b.size > 0 && Canonical(g) && (g != [] ==> b.End() < g[0].start)
    ensures Canonical([b] + g)
  {
    forall i, j | 0 <= i < j < |g| + 1 ensures ([b] + g)[i].End() < ([b] + g)[j].start {
      if i == 0 && j > 1 { assert g[0].End() < g[j - 1].start; }
    }
  }

  lemma {:induction false} InsertCovers(f: seq<Block>, b: Block, a: int)
    ensures Covers(Insert(f, b), a) <==> Covers(f, a) || b.Has(a)
    decreases |f|
  {
    if f != [] {
      assert f == [f[0]] + f[1..];
      ConsCovers(f[0], f[1..], a);
      if b.End() < f[0].start {
        ConsCovers(b, f, a);
      } else if b.End() == f[0].start {
        ConsCovers(Block(b.start, b.size + f[0].size), f[1..], a);
      } else if f[0].End() == b.start {
        InsertCovers(f[1..], Block(f[0].start, f[0].size + b.size), a);
      } else {
        InsertCovers(f[1..], b, a);
        ConsCovers(f[0], Insert(f[1..], b), a);
      }
    } else {
      ConsCovers(b, [], a);
      assert [b] + [] == [b];
    }
  }

  /** Insertion keeps the list canonical and adds exactly the inserted addresses. */
  lemma InsertCorrect(f: seq<Block>, b: Block)
    requires Canonical(f) && b.size > 0 && DisjointFrom(f, b)
    ensures Canonical(Insert(f, b))
    ensures forall a :: Covers(Insert(f, b), a) <==> Covers(f, a) || b.Has(a)
  {
    InsertCanonical(f, b);
    forall a ensures Covers(Insert(f, b), a) <==> Covers(f, a) || b.Has(a) {
      InsertCovers(f, b, a);
    }
  }

  lemma ConsCovers(b: Block, f: seq<Block>, a: int)
    ensures Covers([b] + f, a) <==> b.Has(a) || Covers(f, a)
  {
    if b.Has(a) { assert ([b] + f)[0].Has(a); }
    if Covers(f, a) {
      var i :| 0 <= i < |f| && f[i].Has(a);
      assert ([b] + f)[i + 1].Has(a);
    }
  }

  /** Insert every block of `bs`, in order. */
  function InsertAll(f: seq<Block>, bs: seq<Block>): seq<Block>
    decreases |bs|
  {
    if bs == [] then f else InsertAll(Insert(f, bs[0]), bs[1..])
  }

  /** `bs` may be freed into `f`: non-empty, mutually disjoint, and none of it free already. */
  ghost predicate Freeable(f: seq<Block>, bs: seq<Block>) {
    && PairwiseDisjoint(bs)
    && forall i :: 0 <= i < |bs| ==> bs[i].size > 0 && DisjointFrom(f, bs[i])
  }

  lemma InsertKeepsDisjoint(f: seq<Block>, b: Block, c: Block)
    requires Canonical(f) && b.size > 0 && DisjointFrom(f, b)
    requires c.size > 0 && DisjointFrom(f, c) && Disjoint(b, c)
    ensures DisjointFrom(Insert(f, b), c)
  {
    InsertCorrect(f, b);
    var r := Insert(f, b);
    forall i | 0 <= i < |r| ensures Disjoint(r[i], c) {
      var a := if r[i].start < c.start then c.start else r[i].start;
      assert !Disjoint(r[i], c) && r[i].size > 0 ==> r[i].Has(a) && c.Has(a) && Covers(r, a);
    }
  }

  lemma {:induction false} InsertAllCorrect(f: seq<Block>, bs: seq<Block>)
    requires Canonical(f) && Freeable(f, bs)
    ensures Canonical(InsertAll(f, bs))
    ensures forall a :: Covers(InsertAll(f, bs), a) <==> Covers(f, a) || Covers(bs, a)
    decreases |bs|
  {
    if bs != [] {
      hide Insert, Canonical;
      var g := Insert(f, bs[0]);
      InsertCorrect(f, bs[0]);
      forall i | 0 <= i < |bs[1..]| ensures DisjointFrom(g, bs[1..][i]) {
        InsertKeepsDisjoint(f, bs[0], bs[i + 1]);
      }
      InsertAllCorrect(g, bs[1..]);
      forall a ensures Covers(InsertAll(f, bs), a) <==> Covers(f, a) || Covers(bs, a) {
        assert bs == [bs[0]] + bs[1..];
        ConsCovers(bs[0], bs[1..], a);
      }
    }
  }

  /** Freeing the same blocks in any order gives the same free list. */
  lemma FreeOrderIrrelevant(f: seq<Block>, xs: seq<Block>, ys: seq<Block>)
    requires Canonical(f) && Freeable(f, xs) && Freeable(f, ys)
    requires multiset(xs) == multiset(ys)
    ensures InsertAll(f, xs) == InsertAll(f, ys)
  {
    InsertAllCorrect(f, xs);
    InsertAllCorrect(f, ys);
    forall a ensures Covers(xs, a) <==> Covers(ys, a) {
      if Covers(xs, a) { PermutedCovers(xs, ys, a); }
      if Covers(ys, a) { PermutedCovers(ys, xs, a); }
    }
    CanonicalUnique(InsertAll(f, xs), InsertAll(f, ys));
  }

  lemma PermutedCovers(xs: seq<Block>, ys: seq<Block>, a: int)
    requires multiset(xs) == multiset(ys) && Covers(xs, a)
    ensures Covers(ys, a)
  {
    var i :| 0 <= i < |xs| && xs[i].Has(a);
    assert xs[i] in multiset(ys);
    var j :| 0 <= j < |ys| && ys[j] == xs[i];
  }

  /** Taking a covered block away and freeing it again restores the list. */
  lemma CarveThenInsert(f: seq<Block>, g: seq<Block>, b: Block)
    requires Canonical(f) && Canonical(g) && b.size > 0
    requires forall a :: b.Has(a) ==> Covers(f, a)
    requires forall a :: Covers(g, a) <==> Covers(f, a) && !b.Has(a)
    ensures Insert(g, b) == f
  {
    forall i | 0 <= i < |g| ensures Disjoint(g[i], b) {
      var a := if g[i].start < b.start then b.start else g[i].start;
      assert !Disjoint(g[i], b) ==> g[i].Has(a) && b.Has(a) && Covers(g, a);
    }
    InsertCorrect(g, b);
    CanonicalUnique(Insert(g, b), f);
  }

  function Span(start: int, n: nat): set<int> {
    set a | start <= a < start + n && Block(start, n).Has(a)
  }

  lemma {:induction false} SpanSize(start: int, n: nat)
    ensures |Span(start, n)| == n
  {
    if n > 0 {
      assert Span(start, n) == Span(start, n - 1) + {start + n - 1};
      SpanSize(start, n - 1);
    }
  }

  /** The set of covered addresses. */
  function Bytes(f: seq<Block>): set<int> {
    if f == [] then {} else Span(f[0].start, f[0].size) + Bytes(f[1..])
  }

  lemma {:induction false} BytesCovers(f: seq<Block>, a: int)
    ensures a in Bytes(f) <==> Covers(f, a)
  {
    if f != [] {
      BytesCovers(f[1..], a);
      assert f == [f[0]] + f[1..];
      ConsCovers(f[0], f[1..], a);
    }
  }

  /** Disjoint blocks cover as many addresses as their sizes add up to. */
  lemma {:induction false} BytesSize(f: seq<Block>)
    requires PairwiseDisjoint(f)
    ensures |Bytes(f)| == Sum(f)
  {
    if f != [] {
      BytesSize(f[1..]);
      SpanSize(f[0].start, f[0].size);
      forall a | a in Bytes(f[1..]) ensures a !in Span(f[0].start, f[0].size) {
        BytesCovers(f[1..], a);
        var i :| 0 <= i < |f[1..]| && f[1..][i].Has(a);
        assert Disjoint(f[0], f[i + 1]);
      }
      assert Span(f[0].start, f[0].size) !! Bytes(f[1..]);
    }
  }

  /** A partition of the covered addresses splits the total size accordingly. */
  lemma PartitionSize(pool: seq<Block>, f: seq<Block>, g: seq<Block>, rest: set<int>)
    requires PairwiseDisjoint(pool) && PairwiseDisjoint(f) && PairwiseDisjoint(g)
    requires forall a :: Covers(pool, a) <==> Covers(f, a) || Covers(g, a) || a in rest
    requires forall a :: !(Covers(f, a) && Covers(g, a))
    requires forall a :: a in rest ==> !Covers(f, a) && !Covers(g, a)
    ensures Sum(pool) == Sum(f) + Sum(g) + |rest|
  {
    var p, x, y := Bytes(pool), Bytes(f), Bytes(g);
    assert |p| == Sum(pool) && |x| == Sum(f) && |y| == Sum(g) by {
      BytesSize(pool);
      BytesSize(f);
      BytesSize(g);
    }
    forall a ensures (a in p <==> a in x || a in y || a in rest) && !(a in x && a in y) {
      BytesCovers(pool, a);
      BytesCovers(f, a);
      BytesCovers(g, a);
    }
    forall a | a in rest ensures a !in x && a !in y {
      BytesCovers(f, a);
      BytesCovers(g, a);
    }
    DisjointUnionSize(p, x, y, rest);
  }

  lemma DisjointUnionSize(p: set<int>, x: set<int>, y: set<int>, z: set<int>)
    requires forall a | a in p :: a in x || a in y || a in z
    requires x <= p && y <= p && z <= p
    requires x !! y && x !! z && y !! z
    ensures |p| == |x| + |y| + |z|
  {
    forall a | a in p ensures a in x + y + z {}
    assert p == x + y + z;
  }

  /** Drop the first occurrence of `b`. */
  function Remove(f: seq<Block>, b: Block): seq<Block> {
    if f == [] then []
    else if f[0] == b then f[1..]
    else [f[0]] + Remove(f[1..], b)
  }

  lemma {:induction false} RemoveMembers(f: seq<Block>, b: Block)
    ensures forall c :: c in Remove(f, b) ==> c in f
    ensures forall c :: c in f && c != b ==> c in Remove(f, b)
    ensures b in f ==> Sum(Remove(f, b)) + b.size == Sum(f)
  {
    if f != [] && f[0] != b {
      RemoveMembers(f[1..], b);
      assert ([f[0]] + Remove(f[1..], b))[1..] == Remove(f[1..], b);
    }
  }

  lemma {:induction false} RemoveDisjoint(f: seq<Block>, b: Block)
    requires PairwiseDisjoint(f) && b.size > 0 && b in f
    ensures PairwiseDisjoint(Remove(f, b))
    ensures forall c :: c in Remove(f, b) ==> Disjoint(c, b)
  {
    if f[0] != b {
      RemoveDisjoint(f[1..], b);
      RemoveMembers(f[1..], b);
      var t := Remove(f[1..], b);
      forall k | 0 <= k < |t| ensures Disjoint(f[0], t[k]) {
        assert t[k] in f[1..];
      }
      assert Disjoint(f[0], b);
    }
  }

  lemma MemberCovers(f: seq<Block>, a: int)
    ensures Covers(f, a) <==> exists b :: b in f && b.Has(a)
  {
    if Covers(f, a) {
      var i :| 0 <= i < |f| && f[i].Has(a);
      assert f[i] in f;
    }
  }

  lemma RemoveCovers(f: seq<Block>, b: Block, a: int)
    requires PairwiseDisjoint(f) && b.size > 0 && b in f
    ensures Covers(Remove(f, b), a) <==> Covers(f, a) && !b.Has(a)
  {
    MemberCovers(f, a);
    MemberCovers(Remove(f, b), a);
    RemoveMembers(f, b);
    RemoveDisjoint(f, b);
  }

  /** What the list becomes when `[start + pre, start + pre + n)` is cut out of entry `i`
      and remainders smaller than `min` are dropped. */
  function Carve(f: seq<Block>, i: nat, pre: nat, n: nat, min: nat): seq<Block>
    requires i < |f| && pre + n <= f[i].size
  {
    f[..i] +
    Keep(Block(f[i].start, pre), min) +
    Keep(Block(f[i].start + pre + n, f[i].size - pre - n), min) +
    f[i + 1..]
  }

  function Keep(b: Block, min: nat): seq<Block> {
    if b.size >= min then [b] else []
  }

  /** The bytes dropped by `Carve`. */
  function Dropped(b: Block, pre: nat, n: nat, min: nat): set<int>
    requires pre + n <= b.size
  {
    Drop(Block(b.start, pre), min) + Drop(Block(b.start + pre + n, b.size - pre - n), min)
  }

  function Drop(b: Block, min: nat): set<int> {
    if b.size < min then Span(b.start, b.size) else {}
  }

  lemma CanonicalConcat(f: seq<Block>, g: seq<Block>)
    requires Canonical(f) && Canonical(g)
    requires forall b, c :: b in f && c in g ==> b.End() < c.start
    ensures Canonical(f + g)
  {
  }

  /** Replacing an entry by canonical pieces of itself keeps the list canonical. */
  lemma ReplaceCanonical(f: seq<Block>, i: nat, mid: seq<Block>)
    requires i < |f| && Canonical(f) && Canonical(mid)
    requires forall b :: b in mid ==> f[i].start <= b.start && b.End() <= f[i].End()
    ensures Canonical(f[..i] + mid + f[i + 1..])
  {
    CanonicalConcat(f[..i], mid);
    CanonicalConcat(f[..i] + mid, f[i + 1..]);
  }

  lemma CarveCanonical(f: seq<Block>, i: nat, pre: nat, n: nat, min: nat)
    requires i < |f| && pre + n <= f[i].size && n > 0 && min > 0 && Canonical(f)
    ensures Canonical(Carve(f, i, pre, n, min))
  {
    var x := Keep(Block(f[i].start, pre), min);
    var y := Keep(Block(f[i].start + pre + n, f[i].size - pre - n), min);
    CanonicalConcat(x, y);
    ReplaceCanonical(f, i, x + y);
    assert f[..i] + (x + y) + f[i + 1..] == f[..i] + x + y + f[i + 1..];
  }

  lemma CarveKeepsMinimum(f: seq<Block>, i: nat, pre: nat, n: nat, min: nat)
    requires i < |f| && pre + n <= f[i].size
    requires forall b :: b in f ==> b.size >= min
    ensures forall b :: b in Carve(f, i, pre, n, min) ==> b.size >= min
  {
  }

  lemma ConcatCovers(f: seq<Block>, g: seq<Block>, a: int)
    ensures Covers(f + g, a) <==> Covers(f, a) || Covers(g, a)
  {
    if Covers(f, a) {
      var i :| 0 <= i < |f| && f[i].Has(a);
      assert (f + g)[i].Has(a);
    }
    if Covers(g, a) {
      var i :| 0 <= i < |g| && g[i].Has(a);
      assert (f + g)[|f| + i].Has(a);
    }
  }

  lemma SplitCovers(f: seq<Block>, i: nat, a: int)
    requires i < |f|
    ensures Covers(f, a) <==> Covers(f[..i], a) || f[i].Has(a) || Covers(f[i + 1..], a)
  {
    assert f == f[..i] + ([f[i]] + f[i + 1..]);
    ConcatCovers(f[..i], [f[i]] + f[i + 1..], a);
    ConsCovers(f[i], f[i + 1..], a);
  }

  lemma KeepCovers(b: Block, min: nat, a: int)
    ensures Covers(Keep(b, min), a) <==> b.Has(a) && a !in Drop(b, min)
  {
    if b.Has(a) && b.size >= min { assert Keep(b, min)[0].Has(a); }
  }

  /** Carving removes exactly the allocated block and the dropped remainders. */
  lemma CarveCovers(f: seq<Block>, i: nat, pre: nat, n: nat, min: nat, a: int)
    requires i < |f| && pre + n <= f[i].size && n > 0 && min > 0 && Canonical(f)
    ensures Covers(Carve(f, i, pre, n, min), a) <==>
              Covers(f, a) && !Block(f[i].start + pre, n).Has(a) && a !in Dropped(f[i], pre, n, min)
  {
    var b := f[i];
    var p, q := Block(b.start, pre), Block(b.start + pre + n, b.size - pre - n);
    var x, y := Keep(p, min), Keep(q, min);
    ConcatCovers(f[..i] + x + y, f[i + 1..], a);
    ConcatCovers(f[..i] + x, y, a);
    ConcatCovers(f[..i], x, a);
    KeepCovers(p, min, a);
    KeepCovers(q, min, a);
    SplitCovers(f, i, a);
    assert b.Has(a) ==> !Covers(f[..i], a) && !Covers(f[i + 1..], a);
  }
}
