/** I/O buffers: a data area and its descriptor, allocated as one unit when that does not push
    the total over the alignment boundary and as two blocks otherwise. */
module IoBuffer {
  import opened Bits
  import opened FreeList
  import opened HeapPhase
  import opened HeapState
  import opened Malloc

  const IOB_ZLEN: nat := 64

  /** `1 << fls ( align - 1 )`: the least power of two that is at least `align`. */
  function Pow2Above(align: nat): (p: nat)
    requires align > 0
    ensures p > 0
  {
    Pow2(Fls(align - 1))
  }

  lemma Pow2AboveIsLeast(align: nat, k: nat)
    requires align > 0
    ensures IsPow2(Pow2Above(align)) && align <= Pow2Above(align)
    ensures align <= Pow2(k) ==> Pow2Above(align) <= Pow2(k)
  {
    FlsBounds(align - 1);
    var f := Fls(align - 1);
    if align <= Pow2(k) && k < f { Pow2Monotone(k, f - 1); }
    if k >= f { Pow2Monotone(f, k); }
  }

  /** Size and alignment of the descriptor. */
  datatype Descriptor = Descriptor(size: nat, alignLog: nat) {
    ghost predicate Ok() { size > 0 && alignLog <= 6 }

    /** `( len + align - 1 ) & ~( align - 1 )` */
    function RoundLen(len: nat): nat {
      var a := Pow2(alignLog);
      (len + a - 1) / a * a
    }

    lemma RoundLenBounds(len: nat)
      ensures len <= RoundLen(len) < len + Pow2(alignLog) && RoundLen(len) % Pow2(alignLog) == 0
    {
      var a := Pow2(alignLog);
      var q := (len + a - 1) / a;
      assert len + a - 1 == q * a + (len + a - 1) % a;
      DivUnique(q * a, a, q, 0);
    }

    lemma RoundLenBelowMultiple(len: nat, m: nat)
      requires len <= m && m % Pow2(alignLog) == 0
      ensures RoundLen(len) <= m
    {
      var a := Pow2(alignLog);
      RoundLenBounds(len);
      if RoundLen(len) > m { ModSub(RoundLen(len), m, a); }
    }
  }

  class IoBuffer {
    /** Address of the descriptor. */
    const addr: int
    var head: int
    var data: int
    var tail: int
    var end: int

    ghost predicate Ordered() reads this { head <= data <= tail <= end }

    constructor (addr: int, head: int, end: int)
      ensures this.addr == addr && this.head == data == tail == head && this.end == end
    {
      this.addr, this.head, this.data, this.tail, this.end := addr, head, head, head, end;
    }
  }

  /** The data block (with the descriptor at its end when inline). */
  ghost function DataBlock(p: Params, d: Descriptor, inline: bool, head: int, len: nat): Block
    requires p.Ok()
  {
    Block(head, p.RoundUp(if inline then len + d.size else len))
  }

  /** What `alloc_iob_raw` leaves behind: the data block is live and, unless the descriptor is
      inline, so is a separate descriptor block that does not start where the data ends. */
  ghost predicate Allotted(p: Params, s: Heap, d: Descriptor, addr: int, head: int, end: int, inline: bool) {
    && p.Ok() && head <= end
    && s.Owned(DataBlock(p, d, inline, head, end - head))
    && (inline <==> addr == end)
    && (!inline ==> AutosizedIn(p, s, addr, d.size))
    && (!inline ==> Disjoint(DataBlock(p, d, false, head, end - head), AutosizedBlock(p, addr, d.size)))
  }

  /** The blocks that belong to the buffer. */
  ghost predicate Part(p: Params, d: Descriptor, addr: int, head: int, end: int, inline: bool, b: Block) {
    && p.Ok() && head <= end
    && (b == DataBlock(p, d, inline, head, end - head) || (!inline && b == AutosizedBlock(p, addr, d.size)))
  }

  /** From `s` to `t` exactly the buffer's blocks were added. */
  ghost predicate Took(p: Params, s: Heap, t: Heap, d: Descriptor, addr: int, head: int, end: int, inline: bool) {
    && Allotted(p, t, d, addr, head, end, inline)
    && (forall b :: s.Owned(b) ==> Undisturbed(s, t, b) && !Part(p, d, addr, head, end, inline, b))
    && (forall b :: b in t.h.live ==> b in s.h.live || Part(p, d, addr, head, end, inline, b))
    && (forall b :: t.Owned(b) ==> s.Owned(b) || Part(p, d, addr, head, end, inline, b))
  }

  /** A detached descriptor cannot sit exactly at the end of its own data area. */
  lemma DetachedIsApart(p: Params, d: Descriptor, head: int, len: nat, addr: int)
    requires p.Ok() && len > 0 && d.size > 0
    requires len <= p.RoundUp(len) && p.header + d.size <= AutosizedBlock(p, addr, d.size).size
    requires Disjoint(DataBlock(p, d, false, head, len), AutosizedBlock(p, addr, d.size))
    ensures addr != head + len
  {
  }

  lemma InlineTook(p: Params, s: Heap, t: Heap, d: Descriptor, head: int, len: nat)
    requires Inv(p, s) && Inv(p, t) && NewBlock(s, t, DataBlock(p, d, true, head, len))
    ensures Took(p, s, t, d, head + len, head, head + len, true)
  {
    var x := DataBlock(p, d, true, head, len);
    forall b | s.Owned(b) ensures b != x { assert Disjoint(x, b) && b in s.h.live && x in t.h.live; }
  }

  lemma DetachedTook(p: Params, s: Heap, t: Heap, u: Heap, d: Descriptor, head: int, len: nat, addr: int)
    requires Inv(p, s) && Inv(p, t) && Inv(p, u) && len > 0 && d.size > 0 && len <= p.RoundUp(len)
    requires NewBlock(s, t, DataBlock(p, d, false, head, len))
    requires Reallocated(p, t, u, false, NULL, 0, addr, d.size)
    ensures Took(p, s, u, d, addr, head, head + len, false)
  {
    assert p.Ok();
    hide Inv, Params.RoundUp, Undisturbed, SameContents;
    var x, y := DataBlock(p, d, false, head, len), AutosizedBlock(p, addr, d.size);
    AutosizedRoom(p, u, addr, d.size);
    assert Disjoint(y, x);
    DetachedIsApart(p, d, head, len, addr);
    UndisturbedOwned(t, u, x);
    forall b | s.Owned(b) ensures Undisturbed(s, u, b) && b != x && b != y {
      assert Undisturbed(s, t, b) && Disjoint(x, b) && b in s.h.live;
      UndisturbedOwned(s, t, b);
      assert Undisturbed(t, u, b) && Disjoint(y, b);
      UndisturbedTwice(s, t, u, b);
    }
  }

  /** Giving the data block back after the descriptor could not be allocated. */
  lemma BackedOut(p: Params, s: Heap, t: Heap, u: Heap, b: Block)
    requires Inv(p, s) && Inv(p, u) && NewBlock(s, t, b) && OnlyDiscarded(t, u)
    ensures u.Owned(b) && OnlyDiscarded(s, u.Free(b))
  {
    assert Undisturbed(t, u, b);
    FreeDisturbsNoOther(p, u, b);
    forall c | s.Owned(c) ensures Undisturbed(s, u.Free(b), c) {
      assert Undisturbed(s, t, c) && Disjoint(b, c) && c in s.h.live && b in u.h.live;
      assert Undisturbed(t, u, c) && Undisturbed(u, u.Free(b), c);
    }
  }

  ghost predicate Fits(h: Allocator, d: Descriptor, len: nat, align: nat) {
    && align > 0
    && h.Representable(d.RoundLen(len) + d.size, Pow2Above(align))
    && h.Representable(d.size + h.par.header, 1)
  }

  /** The allocations made for a buffer: the data block and the heap after it, then the descriptor and
      the heap after that. */
  datatype Trail = Trail(data: int, dataDiscards: nat, dataEntry: nat, mid: Heap,
                         desc: int, descDiscards: nat, descEntry: nat, last: Heap)

  /** From heap `s` to heap `t` exactly the allocations of `alloc_iob_raw` were made; data that had been
      allocated is given back if there is no room for the descriptor. */
  ghost predicate Obtained(h: Allocator, s: Heap, t: Heap, r: Trail, d: Descriptor, size: nat, boundary: nat, offset: nat, inline: bool) {
    && h.par.Ok()
    && h.Allocated(s, r.dataDiscards, r.mid, if inline then size + d.size else size, boundary, offset, r.data, r.dataEntry)
    && if inline || r.data == NULL then t == r.mid
       else && h.AutoAllocated(r.mid, r.descDiscards, r.last, d.size, r.desc, r.descEntry)
            && t == if r.desc == NULL then r.last.Free(Block(r.data, h.par.RoundUp(size))) else r.last
  }

  ghost predicate Failed(r: Trail, inline: bool) { r.data == NULL || (!inline && r.desc == NULL) }

  /** A buffer is refused only if, with nothing cached any more, no address fits the data, or the data
      was placed and no address fits the descriptor. */
  lemma FailedMeansFull(h: Allocator, s: Heap, t: Heap, r: Trail, d: Descriptor, size: nat, boundary: nat, offset: nat, inline: bool)
    requires Obtained(h, s, t, r, d, size, boundary, offset, inline) && Failed(r, inline)
    ensures r.data == NULL ==> t.cache == [] && h.NoPlacement(t, if inline then size + d.size else size, boundary, offset)
    ensures r.data != NULL ==> !inline && r.last.cache == [] && h.NoPlacement(r.last, d.size + h.par.header, 1, 0)
  {
  }

  method AllocDetached(h: Allocator, d: Descriptor, size: nat, boundary: nat, offset: nat)
    returns (iob: IoBuffer?, ghost r: Trail)
    requires h.Valid() && d.Ok() && size > 0 && boundary > 0 && IsPow2(boundary)
    requires h.Representable(size, boundary) && h.Representable(d.size + h.par.header, 1)
    modifies h
    ensures h.Valid()
    ensures iob == null ==> OnlyDiscarded(old(h.State()), h.State())
    ensures Obtained(h, old(h.State()), h.State(), r, d, size, boundary, offset, false) && (iob == null <==> Failed(r, false))
    ensures iob != null ==>
              && fresh(iob) && iob.head == r.data && iob.addr == r.desc && iob.data == iob.tail == iob.head && iob.end - iob.head == size
              && Took(h.par, old(h.State()), h.State(), d, iob.addr, iob.head, iob.end, false)
              && (iob.head + h.par.phys - offset) % boundary == 0
  {
    hide Took, NewBlock, OnlyDiscarded, Inv, Reallocated, Heap.Free, Params.RoundUp, Phased, Allocator.Allocated, Allocator.AutoAllocated;
    h.ParametersOk();
    ghost var s := h.State();
    var data, desc;
    ghost var discards, entry, discards2, entry2;
    data, discards, entry := h.MallocDma(size, boundary, offset);
    ghost var t := h.State();
    if data == NULL {
      return null, Trail(data, discards, entry, t, NULL, 0, 0, t);
    }
    desc, discards2, entry2 := h.Malloc(d.size);
    ghost var u := h.State();
    r := Trail(data, discards, entry, t, desc, discards2, entry2, u);
    if desc == NULL {
      BackedOut(h.par, s, t, u, Block(data, h.par.RoundUp(size)));
      h.FreeMemblock(data, size);
      return null, r;
    }
    DetachedTook(h.par, s, t, u, d, data, size, desc);
    iob := new IoBuffer(desc, data, data + size);
  }

  /** `alloc_iob_raw` */
  method AllocIobRaw(h: Allocator, d: Descriptor, len: nat, align: nat, offset: nat)
    returns (iob: IoBuffer?, ghost inline: bool, ghost r: Trail)
    requires h.Valid() && d.Ok() && Fits(h, d, len, align)
    requires len > 0 || d.size <= Pow2Above(align)
    modifies h
    ensures h.Valid() && (inline <==> d.RoundLen(len) + d.size <= Pow2Above(align))
    ensures iob == null ==> OnlyDiscarded(old(h.State()), h.State())
    ensures Obtained(h, old(h.State()), h.State(), r, d, d.RoundLen(len), Pow2Above(align), offset, inline)
    ensures iob == null <==> Failed(r, inline)
    ensures iob != null ==>
              && fresh(iob) && iob.head == r.data && iob.addr == (if inline then iob.end else r.desc) && iob.data == iob.tail == iob.head && iob.end - iob.head == d.RoundLen(len)
              && Took(h.par, old(h.State()), h.State(), d, iob.addr, iob.head, iob.end, inline)
              && (iob.head + h.par.phys - offset) % Pow2Above(align) == 0
  {
    hide Took, NewBlock, OnlyDiscarded, Inv, Pow2Above, Phased, Params.RoundUp, Allocator.Representable, Allocator.Allocated, Allocator.AutoAllocated;
    h.ParametersOk();
    var size := d.RoundLen(len);
    var boundary := Pow2Above(align);
    Pow2AboveIsLeast(align, 0);
    d.RoundLenBounds(len);
    if size + d.size <= boundary {
      inline := true;
      ghost var s := h.State();
      var data;
      ghost var discards, entry;
      data, discards, entry := h.MallocDma(size + d.size, boundary, offset);
      r := Trail(data, discards, entry, h.State(), NULL, 0, 0, h.State());
      if data == NULL {
        return null, true, r;
      }
      InlineTook(h.par, s, h.State(), d, data, size);
      iob := new IoBuffer(data + size, data, data + size);
    } else {
      inline := false;
      h.SmallerRepresentable(size, size + d.size, boundary);
      iob, r := AllocDetached(h, d, size, boundary, offset);
    }
  }

  /** `alloc_iob`: the buffer never crosses a boundary of its length rounded up to a power of two. */
  method AllocIob(h: Allocator, d: Descriptor, len: nat)
    returns (iob: IoBuffer?, ghost inline: bool, ghost r: Trail)
    requires h.Valid() && d.Ok() && Fits(h, d, Max(len, IOB_ZLEN), Max(len, IOB_ZLEN))
    modifies h
    ensures h.Valid()
    ensures iob == null ==> OnlyDiscarded(old(h.State()), h.State())
    ensures var padded := Max(len, IOB_ZLEN);
            Obtained(h, old(h.State()), h.State(), r, d, d.RoundLen(padded), Pow2Above(padded), 0, inline)
    ensures iob == null <==> Failed(r, inline)
    ensures iob != null ==>
              && fresh(iob) && iob.data == iob.tail == iob.head && iob.end - iob.head == d.RoundLen(Max(len, IOB_ZLEN)) >= len
              && Took(h.par, old(h.State()), h.State(), d, iob.addr, iob.head, iob.end, inline)
              && OneCell(iob.head, iob.end, h.par.phys, Pow2Above(Max(len, IOB_ZLEN)))
  {
    hide Took, OnlyDiscarded, Inv, Pow2Above, Descriptor.RoundLen, OneCell, Obtained;
    var padded := if len < IOB_ZLEN then IOB_ZLEN else len;
    iob, inline, r := AllocIobRaw(h, d, padded, padded, 0);
    if iob != null {
      d.RoundLenBounds(padded);
      WithinBoundary(d, padded);
      NoCrossing(iob.head, iob.end, h.par.phys, Pow2Above(padded));
    }
  }

  /** The `m`-byte physical cell that holds `a`. */
  function Cell(a: int, phys: int, m: nat): int
    requires m > 0
  {
    (a + phys) / m
  }

  /** `[head, end)` does not cross a multiple of `m`. */
  ghost predicate OneCell(head: int, end: int, phys: int, m: nat)
    requires m > 0
  {
    forall a :: head <= a < end ==> Cell(a, phys, m) == Cell(head, phys, m)
  }

  lemma NoCrossing(head: int, end: int, phys: int, m: nat)
    requires m > 0 && (head + phys) % m == 0 && end <= head + m
    ensures OneCell(head, end, phys, m)
  {
    forall a | head <= a < end ensures Cell(a, phys, m) == Cell(head, phys, m) {
      DivUnique(a + phys, m, (head + phys) / m, a - head);
    }
  }

  lemma WithinBoundary(d: Descriptor, len: nat)
    requires d.Ok() && len >= IOB_ZLEN
    ensures d.RoundLen(len) <= Pow2Above(len)
  {
    var m := Pow2Above(len);
    Pow2AboveIsLeast(len, 0);
    var k := Fls(len - 1);
    assert Pow2(6) == 64;
    if k < d.alignLog { Pow2Monotone(k, 6); Pow2Monotone(k + 1, 6); }
    Pow2Divides(d.alignLog, k);
    d.RoundLenBelowMultiple(len, m);
  }

  /** From `s` to `t` exactly the buffer's blocks were freed. */
  ghost predicate Gave(p: Params, s: Heap, t: Heap, d: Descriptor, addr: int, head: int, end: int, inline: bool) {
    && (forall b :: s.Owned(b) && !Part(p, d, addr, head, end, inline, b) ==> Undisturbed(s, t, b))
    && (forall b :: b in t.h.live ==> b in s.h.live && !Part(p, d, addr, head, end, inline, b))
    && (forall b :: t.Owned(b) ==> s.Owned(b))
  }

  /** The heap with the buffer's blocks freed. */
  ghost function GivenBack(p: Params, s: Heap, d: Descriptor, addr: int, head: int, end: int, inline: bool): Heap
    requires p.Ok() && head <= end
  {
    var t := s.Free(DataBlock(p, d, inline, head, end - head));
    if inline then t else Released(p, t, addr, d.size, NOWHERE, 0)
  }

  lemma InlineGave(p: Params, s: Heap, d: Descriptor, addr: int, head: int, end: int)
    requires Inv(p, s) && Allotted(p, s, d, addr, head, end, true)
    ensures NULL < head && Gave(p, s, s.Free(DataBlock(p, d, true, head, end - head)), d, addr, head, end, true)
  {
    var x := DataBlock(p, d, true, head, end - head);
    LiveAboveNull(p, s, x);
    FreeDisturbsNoOther(p, s, x);
  }

  lemma DetachedStill(p: Params, s: Heap, d: Descriptor, addr: int, head: int, end: int)
    requires Inv(p, s) && Allotted(p, s, d, addr, head, end, false)
    ensures NULL < head && NULL < addr
    ensures AutosizedIn(p, s.Free(DataBlock(p, d, false, head, end - head)), addr, d.size)
  {
    var x, y := DataBlock(p, d, false, head, end - head), AutosizedBlock(p, addr, d.size);
    LiveAboveNull(p, s, x);
    LiveAboveNull(p, s, y);
    FreeDisturbsNoOther(p, s, x);
    assert x.size > 0 && y.size > 0 && Disjoint(x, y);
    assert Undisturbed(s, s.Free(x), y);
  }

  lemma DetachedGave(p: Params, s: Heap, u: Heap, d: Descriptor, addr: int, head: int, end: int)
    requires Inv(p, s) && Allotted(p, s, d, addr, head, end, false)
    requires Reallocated(p, s.Free(DataBlock(p, d, false, head, end - head)), u, true, addr, d.size, NOWHERE, 0)
    ensures Gave(p, s, u, d, addr, head, end, false)
  {
    var x, y := DataBlock(p, d, false, head, end - head), AutosizedBlock(p, addr, d.size);
    FreeDisturbsNoOther(p, s, x);
    forall b | s.Owned(b) && b != x && b != y ensures Undisturbed(s, u, b) {
      assert Undisturbed(s, s.Free(x), b) && Undisturbed(s.Free(x), u, b);
    }
  }

  lemma AllottedFacts(p: Params, s: Heap, d: Descriptor, addr: int, head: int, end: int, inline: bool)
    requires Allotted(p, s, d, addr, head, end, inline)
    ensures p.Ok() && head <= end && (inline <==> addr == end) && s.Owned(DataBlock(p, d, inline, head, end - head))
  {
  }

  /** `free_iob`: telling an inline from a detached descriptor by comparing two pointers, it
      returns exactly the blocks that were allocated. */
  method FreeIob(h: Allocator, d: Descriptor, iob: IoBuffer?, ghost inline: bool)
    requires h.Valid() && d.Ok()
    requires iob != null ==> iob.Ordered() && Allotted(h.par, h.State(), d, iob.addr, iob.head, iob.end, inline)
    modifies h
    ensures h.Valid()
    ensures iob == null ==> h.State() == old(h.State())
    ensures iob != null ==> h.State() == GivenBack(h.par, old(h.State()), d, iob.addr, iob.head, iob.end, inline)
    ensures iob != null ==> Gave(h.par, old(h.State()), h.State(), d, iob.addr, iob.head, iob.end, inline)
  {
    hide Allotted, Gave, Inv, Heap.Free, Phased;
    if iob == null {
      return;
    }
    AllottedFacts(h.par, h.State(), d, iob.addr, iob.head, iob.end, inline);
    if iob.end == iob.addr {
      InlineGave(h.par, h.State(), d, iob.addr, iob.head, iob.end);
      h.FreeMemblock(iob.head, iob.end - iob.head + d.size);
    } else {
      FreeDetached(h, d, iob.addr, iob.head, iob.end);
    }
  }

  /** The data area is returned with its length, then the descriptor. */
  method FreeDetached(h: Allocator, d: Descriptor, addr: int, head: int, end: int)
    requires h.Valid() && d.Ok() && Allotted(h.par, h.State(), d, addr, head, end, false)
    modifies h
    ensures h.Valid() && Gave(h.par, old(h.State()), h.State(), d, addr, head, end, false)
    ensures h.State() == GivenBack(h.par, old(h.State()), d, addr, head, end, false)
  {
    hide Allotted, Gave, Inv, Reallocated, AutosizedIn, Heap.Free, Params.RoundUp, Phased;
    ghost var s := h.State();
    AllottedFacts(h.par, s, d, addr, head, end, false);
    DetachedStill(h.par, s, d, addr, head, end);
    h.FreeMemblock(head, end - head);
    h.Free(addr, d.size);
    DetachedGave(h.par, s, h.State(), d, addr, head, end);
  }

  /** Allocating a buffer and freeing it again leaves the caller with exactly what it had. */
  lemma TookThenGave(p: Params, s: Heap, t: Heap, u: Heap, d: Descriptor, addr: int, head: int, end: int, inline: bool)
    requires Took(p, s, t, d, addr, head, end, inline) && Gave(p, t, u, d, addr, head, end, inline)
    ensures OnlyDiscarded(s, u)
  {
    forall b | s.Owned(b) ensures Undisturbed(s, u, b) {
      assert Undisturbed(s, t, b) && Undisturbed(t, u, b);
    }
  }
}
