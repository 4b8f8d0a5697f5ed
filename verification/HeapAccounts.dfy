/**
  Nothing leaks: over every run each object slot of a slab page is in its free list or handed out, and each
  used frame is one that was reserved, a slab page, or part of a large block that is handed out.
 */
module HeapAccounts {
  import opened Common
  import opened FrameBitmap
  import opened Multiples
  import opened SlabHeap

  ghost predicate SlotKnown(h: Heap, i: nat, a: nat)
    requires i < |h.free|
  {
    a in h.free[i] || a in h.live
  }

  /** Frame `f` is part of the large live block at `a`. */
  ghost predicate InLarge(h: Heap, f: nat, a: nat) {
    a in h.live && h.live[a].IsLarge() && f in Frames(a / BYTES_PER_FRAME, h.live[a].FrameCount())
  }

  ghost predicate FrameKnown(h: Heap, f: nat) {
    f in h.reserved || f in h.slabs || exists a :: InLarge(h, f, a)
  }

  ghost predicate Accounted(h: Heap) {
    && |h.headers| == CLASSES && |h.free| == CLASSES
    && (forall i, a {:trigger SlotKnown(h, i, a)} :: 0 <= i < CLASSES && IsSlot(h, i, a) ==> SlotKnown(h, i, a))
    && (forall f {:trigger FrameKnown(h, f)} :: f in h.used ==> FrameKnown(h, f))
  }

  // ---------------------------------------------------------------- pages list all their objects

  lemma {:induction false} ObjectsComplete(d: nat, start: nat, end: nat, a: nat)
    requires d > 0 && start % d == 0 && a % d == 0 && start <= a < end
    ensures a in Objects(start, d, end)
    decreases end - start
  {
    if a != start {
      MultiplesApart(d, start, a);
      SumOfMultiples(d, start, d);
      ObjectsComplete(d, start + d, end, a);
    }
  }

  lemma PageComplete(i: nat, p: nat, a: nat)
    requires i < CLASSES && a / BYTES_PER_FRAME == p && a % ClassSize(i) == 0
    ensures a in Objects(FrameAddr(p), ClassSize(i), FrameAddr(p + 1))
    ensures a != FrameAddr(p) ==> a in FirstObjects(p, i)
  {
    var d := ClassSize(i);
    ClassesDivideFrame(i);
    FrameIsSlotAligned(d, p);
    ObjectsComplete(d, FrameAddr(p), FrameAddr(p + 1), a);
    if a != FrameAddr(p) {
      MultiplesApart(d, FrameAddr(p), a);
      SumOfMultiples(d, FrameAddr(p), d);
      ObjectsComplete(d, FrameAddr(p) + d, FrameAddr(p + 1), a);
    }
  }

  // ---------------------------------------------------------------- every operation keeps the accounts

  /** A large block that stays live keeps its frames known. */
  lemma LargeStays(h: Heap, h': Heap, f: nat)
    requires FrameKnown(h, f) && h'.reserved == h.reserved && h.slabs.Keys <= h'.slabs.Keys
    requires forall a :: InLarge(h, f, a) ==> a in h'.live && h'.live[a] == h.live[a]
    ensures FrameKnown(h', f)
  {
    if a :| InLarge(h, f, a) {
      assert InLarge(h', f, a);
    }
  }

  lemma TakenAccounted(h: Heap, i: nat, k: nat, layout: Layout)
    requires Inv(h) && Accounted(h) && i < CLASSES && k < |h.free[i]|
    ensures Accounted(Taken(h, i, k, layout))
  {
    var h' := Taken(h, i, k, layout);
    FreeIsNotLive(h, i, h.free[i][k]);
    assert FreeListOk(h, i);
    WithoutElement(h.free[i], k);
    forall j, a: nat | 0 <= j < CLASSES && IsSlot(h', j, a)
      ensures SlotKnown(h', j, a)
    {
      assert IsSlot(h, j, a) && SlotKnown(h, j, a);
    }
    forall f | f in h'.used
      ensures FrameKnown(h', f)
    {
      assert FrameKnown(h, f);
      LargeStays(h, h', f);
    }
  }

  lemma ExtendedAccounted(h: Heap, i: nat, p: nat)
    requires Inv(h) && Accounted(h) && i < CLASSES && p !in h.used
    ensures Accounted(Extended(h, i, p))
  {
    var h' := Extended(h, i, p);
    forall j, a: nat | 0 <= j < CLASSES && IsSlot(h', j, a)
      ensures SlotKnown(h', j, a)
    {
      if a / BYTES_PER_FRAME == p {
        PageComplete(i, p, a);
      } else {
        assert IsSlot(h, j, a) && SlotKnown(h, j, a);
      }
    }
    forall f | f in h'.used
      ensures FrameKnown(h', f)
    {
      if f != p {
        assert FrameKnown(h, f);
        LargeStays(h, h', f);
      }
    }
  }

  lemma LargeAccounted(h: Heap, p: nat, layout: Layout)
    requires Inv(h) && Accounted(h) && layout.IsLarge() && FrameAddr(p) !in h.live
    ensures Accounted(TakenLarge(h, p, layout))
  {
    var h' := TakenLarge(h, p, layout);
    FrameIsSlotAligned(1, p);
    forall j, a: nat | 0 <= j < CLASSES && IsSlot(h', j, a)
      ensures SlotKnown(h', j, a)
    {
      assert IsSlot(h, j, a) && SlotKnown(h, j, a);
    }
    forall f | f in h'.used
      ensures FrameKnown(h', f)
    {
      if f in h.used {
        assert FrameKnown(h, f);
        LargeStays(h, h', f);
      } else {
        assert InLarge(h', f, FrameAddr(p));
      }
    }
  }

  lemma DeallocAccounted(h: Heap, addr: nat)
    requires Inv(h) && Accounted(h) && addr in h.live
    ensures Accounted(Dealloc(h, addr))
  {
    var h' := Dealloc(h, addr);
    assert LiveOk(h, addr);
    forall j, a: nat | 0 <= j < CLASSES && IsSlot(h', j, a)
      ensures SlotKnown(h', j, a)
    {
      assert IsSlot(h, j, a) && SlotKnown(h, j, a);
      if a == addr { FreedSlot(h, addr, j); }
    }
    forall f | f in h'.used
      ensures FrameKnown(h', f)
    {
      assert FrameKnown(h, f);
      LargeStays(h, h', f);
    }
  }

  /** A block that sits on an object slot is a small one, of the class of that slot. */
  lemma FreedSlot(h: Heap, addr: nat, j: nat)
    requires Inv(h) && addr in h.live && j < CLASSES && IsSlot(h, j, addr)
    ensures !h.live[addr].IsLarge() && ClassOf(h.live[addr].size) == Some(j)
  {
    assert LiveOk(h, addr);
  }

  lemma TakeAlignedAccounted(h: Heap, i: nat, layout: Layout)
    requires Inv(h) && Accounted(h) && i < CLASSES && layout.align > 0
    ensures Accounted(TakeAligned(h, i, layout).0)
  {
    var k := FirstAligned(h.free[i], layout.align);
    if k < |h.free[i]| { TakenAccounted(h, i, k, layout); }
  }

  lemma AllocAccounted(h: Heap, layout: Layout)
    requires Inv(h) && Accounted(h) && IsPowerOfTwo(layout.align)
    ensures Accounted(Alloc(h, layout).0)
  {
    if layout.IsLarge() {
      var p := FirstFit(h.used, h.rangeStart, h.rangeEnd, layout.FrameCount());
      if layout.align <= BYTES_PER_FRAME && layout.FrameCount() <= h.rangeEnd && p.Some? {
        AlignDividesFrame(layout.align);
        LargeKeepsInv(h, p.value, layout);
        LargeAccounted(h, p.value, layout);
      }
    } else if ClassOf(layout.size).Some? {
      var i := ClassOf(layout.size).value;
      var p := FirstFit(h.used, h.rangeStart, h.rangeEnd, 1);
      TakeAlignedAccounted(h, i, layout);
      if p.Some? {
        ExtendedKeepsInv(h, i, p.value);
        ExtendedAccounted(h, i, p.value);
        TakeAlignedAccounted(Extended(h, i, p.value), i, layout);
      }
    }
  }

  // ---------------------------------------------------------------- every run

  lemma StartAccounted(used: set<nat>, rangeStart: nat, rangeEnd: nat, headers: seq<nat>)
    requires |headers| == CLASSES && NoDuplicates(headers)
    ensures Accounted(Start(used, rangeStart, rangeEnd, headers))
  {
    var h := Start(used, rangeStart, rangeEnd, headers);
    forall i, a: nat | 0 <= i < CLASSES && IsSlot(h, i, a)
      ensures SlotKnown(h, i, a)
    {
      PageComplete(i, headers[i], a);
    }
    forall f | f in h.used ensures FrameKnown(h, f) { }
  }

  /** In every state of every run every object slot and every used frame is accounted for. */
  lemma {:induction false} NothingLeaks(heaps: seq<Heap>, ops: seq<Op>, results: seq<Outcome>, i: nat)
    requires IsRun(heaps, ops, results) && Inv(heaps[0]) && Accounted(heaps[0]) && i <= |ops|
    ensures Accounted(heaps[i])
    decreases i
  {
    if i > 0 {
      NothingLeaks(heaps, ops, results, i - 1);
      RunInv(heaps, ops, results, i - 1);
      assert OpStep(heaps[i - 1], ops[i - 1], results[i - 1], heaps[i - 1 + 1]);
      match ops[i - 1]
      case AllocOp(layout) => AllocAccounted(heaps[i - 1], layout);
      case DeallocOp(addr) => DeallocAccounted(heaps[i - 1], addr);
    }
  }

  /** When all blocks have been given back, only the reserved frames and the slab pages are in use. */
  lemma AllGivenBack(heaps: seq<Heap>, ops: seq<Op>, results: seq<Outcome>, i: nat)
    requires IsRun(heaps, ops, results) && Inv(heaps[0]) && Accounted(heaps[0]) && i <= |ops|
    requires heaps[i].live == map[]
    ensures heaps[i].used == heaps[i].reserved + heaps[i].slabs.Keys
    ensures |heaps[i].headers| == CLASSES && |heaps[i].free| == CLASSES
    ensures forall j, a :: 0 <= j < CLASSES ==> (a in heaps[i].free[j] <==> IsSlot(heaps[i], j, a))
  {
    NothingLeaks(heaps, ops, results, i);
    RunInv(heaps, ops, results, i);
    var h := heaps[i];
    forall f | f in h.used
      ensures f in h.reserved || f in h.slabs
    {
      assert FrameKnown(h, f);
    }
    forall j, a: nat | 0 <= j < CLASSES
      ensures a in h.free[j] <==> IsSlot(h, j, a)
    {
      assert FreeListOk(h, j);
      if IsSlot(h, j, a) { assert SlotKnown(h, j, a); }
    }
  }

  // ---------------------------------------------------------------- allocate and give back

  /** Giving a large block straight back restores the heap exactly. */
  lemma LargeRoundTrip(h: Heap, layout: Layout)
    requires Inv(h) && IsPowerOfTwo(layout.align) && layout.IsLarge() && Alloc(h, layout).1.Block?
    ensures var (h', r) := Alloc(h, layout); |h'.free| == CLASSES && r.addr in h'.live && Dealloc(h', r.addr) == h
  {
    var (h', r) := Alloc(h, layout);
    AllocReturnsFreshBlock(h, layout);
    var p := FirstFit(h.used, h.rangeStart, h.rangeEnd, layout.FrameCount()).value;
    FrameIsSlotAligned(1, p);
    assert h.used + Frames(p, layout.FrameCount()) - Frames(p, layout.FrameCount()) == h.used;
    assert h'.live - {r.addr} == h.live;
  }

  lemma ToTheFront(list: seq<nat>, k: nat)
    requires k < |list|
    ensures multiset([list[k]] + Without(list, k)) == multiset(list)
  {
    assert list == list[..k] + [list[k]] + list[k + 1..];
  }

  /** Two heaps that differ at most in the order of one free list. */
  ghost predicate SameButOrder(g: Heap, h: Heap, i: nat)
    requires i < |g.free| == |h.free|
  {
    g == h.(free := h.free[i := g.free[i]]) && multiset(g.free[i]) == multiset(h.free[i])
  }

  lemma TakenBack(h: Heap, i: nat, layout: Layout)
    requires Inv(h) && i < CLASSES && !layout.IsLarge() && ClassOf(layout.size) == Some(i) && layout.align > 0
    requires TakeAligned(h, i, layout).1.Block?
    ensures var (h', r) := TakeAligned(h, i, layout);
      && |h'.free| == CLASSES && r.addr in h'.live
      && |Dealloc(h', r.addr).free| == CLASSES && SameButOrder(Dealloc(h', r.addr), h, i)
  {
    var (h', r) := TakeAligned(h, i, layout);
    var k := FirstAligned(h.free[i], layout.align);
    var list := h.free[i];
    FreeIsNotLive(h, i, list[k]);
    assert h'.live - {r.addr} == h.live;
    ToTheFront(list, k);
  }

  /** Taking the first object of a list and giving it back changes nothing. */
  lemma FrontTakenBack(h: Heap, i: nat, layout: Layout)
    requires i < |h.free| == CLASSES && h.free[i] != [] && h.free[i][0] !in h.live
    requires !layout.IsLarge() && ClassOf(layout.size) == Some(i)
    ensures Dealloc(Taken(h, i, 0, layout), h.free[i][0]) == h
  {
    var a := h.free[i][0];
    assert Taken(h, i, 0, layout).live - {a} == h.live;
    assert [a] + Without(h.free[i], 0) == h.free[i];
  }

  lemma ExtendedBack(h: Heap, i: nat, p: nat, layout: Layout)
    requires Inv(h) && i < CLASSES && !layout.IsLarge() && ClassOf(layout.size) == Some(i)
    requires IsPowerOfTwo(layout.align) && TakeAligned(h, i, layout).1.Null?
    requires FirstFit(h.used, h.rangeStart, h.rangeEnd, 1) == Some(p)
    requires TakeAligned(Extended(h, i, p), i, layout).1.Block?
    ensures var (h', r) := TakeAligned(Extended(h, i, p), i, layout);
      |h'.free| == CLASSES && r.addr in h'.live && Dealloc(h', r.addr) == Extended(h, i, p)
  {
    var e := Extended(h, i, p);
    AfterExtension(h, i, p, layout);
    ExtendedKeepsInv(h, i, p);
    FreeIsNotLive(e, i, e.free[i][0]);
    FrontTakenBack(e, i, layout);
  }

  /**
    Giving a small block straight back restores the heap up to the order of one free list; when the class had
    to be extended for it, it leaves exactly the extended heap.
   */
  lemma SmallRoundTrip(h: Heap, layout: Layout)
    requires Inv(h) && IsPowerOfTwo(layout.align) && !layout.IsLarge() && Alloc(h, layout).1.Block?
    ensures ClassOf(layout.size).Some?
    ensures var (h', r) := Alloc(h, layout);
      var i := ClassOf(layout.size).value;
      && |h'.free| == CLASSES && r.addr in h'.live
      && var back := Dealloc(h', r.addr);
      && |back.free| == CLASSES
      && if TakeAligned(h, i, layout).1.Block? then SameButOrder(back, h, i)
         else exists p :: FirstFit(h.used, h.rangeStart, h.rangeEnd, 1) == Some(p) && back == Extended(h, i, p)
  {
    var i := ClassOf(layout.size).value;
    if TakeAligned(h, i, layout).1.Block? {
      TakenBack(h, i, layout);
    } else {
      ExtendedBack(h, i, FirstFit(h.used, h.rangeStart, h.rangeEnd, 1).value, layout);
    }
  }
}
