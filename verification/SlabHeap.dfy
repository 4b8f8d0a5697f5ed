/**
  The two-level allocator as a machine on values: a set of used frames, six free lists of
  slab objects, and the blocks handed out.  `ObjectAllocator` refines it with a packed
  bitmap and free lists threaded through the free memory itself.
 */
module SlabHeap {
  import opened Common
  import opened FrameBitmap
  import opened Multiples

  const CLASSES: nat := 6

  // size_of::<Mutex<PageHeader>>(); an object's own header is smaller
  const PAGE_HEADER_BYTES: nat := 40
  // size_of::<PageHeader>(), from which the reserved space is computed
  const RESERVED_BYTES: nat := 32

  function ClassSize(i: nat): (sz: nat)
    requires i < CLASSES
    ensures 64 <= sz <= 2048
  {
    [64, 128, 256, 512, 1024, 2048][i]
  }

  /** The first class whose objects are strictly larger than `size`. */
  function ClassOf(size: nat): (r: Option<nat>)
    ensures r.None? <==> size >= 2048
    ensures r.Some? ==> r.value < CLASSES && ClassSize(r.value) > size
    ensures r.Some? ==> forall j :: 0 <= j < r.value ==> ClassSize(j) <= size
  {
    if size < 64 then Some(0) else if size < 128 then Some(1) else if size < 256 then Some(2)
    else if size < 512 then Some(3) else if size < 1024 then Some(4) else if size < 2048 then Some(5)
    else None
  }

  datatype Layout = Layout(size: nat, align: nat) {
    function FrameCount(): nat {
      (size + BYTES_PER_FRAME - 1) / BYTES_PER_FRAME
    }

    predicate IsLarge() {
      size > 2048
    }
  }

  /** `Abort` is a panic: an unsupported alignment, or a request beyond the managed range. */
  datatype Outcome = Block(addr: nat) | Null | Abort

  /**
    `slabs` maps each slab frame to its size class and `headers` names the frame that
    holds the page header of each class.  `reserved` are the frames that were marked used
    before the allocator started: memory the firmware does not offer.
   */
  datatype Heap = Heap(
    reserved: set<nat>,
    used: set<nat>,
    rangeStart: nat,
    rangeEnd: nat,
    headers: seq<nat>,
    slabs: map<nat, nat>,
    free: seq<seq<nat>>,
    live: map<nat, Layout>)

  // ---------------------------------------------------------------- operations

  /** Objects at start, start + sz, ... below end. */
  ghost function Objects(start: nat, sz: nat, end: nat): seq<nat>
    requires sz > 0
    decreases end - start
  {
    if start >= end then [] else [start] + Objects(start + sz, sz, end)
  }

  /** The first element of `list` aligned to `align`. */
  ghost function FirstAligned(list: seq<nat>, align: nat): (k: nat)
    requires align > 0
    ensures k <= |list|
    ensures k < |list| ==> list[k] % align == 0
    ensures forall j :: 0 <= j < k ==> list[j] % align != 0
  {
    if list == [] || list[0] % align == 0 then 0 else 1 + FirstAligned(list[1..], align)
  }

  ghost function Without(list: seq<nat>, k: nat): seq<nat>
    requires k < |list|
  {
    list[..k] + list[k + 1..]
  }

  ghost function FrameAddr(frame: nat): nat {
    frame * BYTES_PER_FRAME
  }

  /** Takes the k-th object of class i for `layout`. */
  ghost function Taken(h: Heap, i: nat, k: nat, layout: Layout): Heap
    requires i < |h.free| && k < |h.free[i]|
  {
    h.(free := h.free[i := Without(h.free[i], k)], live := h.live[h.free[i][k] := layout])
  }

  /** Frame `p` becomes a slab of class i, all of it free. */
  ghost function Extended(h: Heap, i: nat, p: nat): Heap
    requires i < CLASSES && i < |h.free|
  {
    h.(used := h.used + Frames(p, 1),
       slabs := h.slabs[p := i],
       free := h.free[i := Objects(FrameAddr(p), ClassSize(i), FrameAddr(p + 1)) + h.free[i]])
  }

  /** A run of frames from `p` on becomes one large block. */
  ghost function TakenLarge(h: Heap, p: nat, layout: Layout): Heap {
    h.(used := h.used + Frames(p, layout.FrameCount()), live := h.live[FrameAddr(p) := layout])
  }

  ghost function TakeAligned(h: Heap, i: nat, layout: Layout): (r: (Heap, Outcome))
    requires i < |h.free| && layout.align > 0
  {
    var k := FirstAligned(h.free[i], layout.align);
    if k < |h.free[i]| then (Taken(h, i, k, layout), Block(h.free[i][k])) else (h, Null)
  }

  ghost function Alloc(h: Heap, layout: Layout): (r: (Heap, Outcome))
    requires |h.free| == CLASSES && layout.align > 0
  {
    if layout.IsLarge() then
      var n := layout.FrameCount();
      if layout.align > BYTES_PER_FRAME || n > h.rangeEnd then (h, Abort)
      else
        match FirstFit(h.used, h.rangeStart, h.rangeEnd, n)
        case None => (h, Null)
        case Some(p) =>
          (TakenLarge(h, p, layout), Block(FrameAddr(p)))
    else
      match ClassOf(layout.size)
      case None => (h, Null)
      case Some(i) =>
        var r := TakeAligned(h, i, layout);
        if r.1.Block? then r
        else if h.rangeEnd < 1 then (h, Abort)
        else
          match FirstFit(h.used, h.rangeStart, h.rangeEnd, 1)
          case None => (h, Null)
          case Some(p) => TakeAligned(Extended(h, i, p), i, layout)
  }

  ghost function Dealloc(h: Heap, addr: nat): (h': Heap)
    requires |h.free| == CLASSES && addr in h.live
  {
    var layout := h.live[addr];
    if layout.IsLarge()
    then h.(used := h.used - Frames(addr / BYTES_PER_FRAME, layout.FrameCount()), live := h.live - {addr})
    else match ClassOf(layout.size)
         case None => h.(live := h.live - {addr})
         case Some(i) => h.(free := h.free[i := [addr] + h.free[i]], live := h.live - {addr})
  }

  // ---------------------------------------------------------------- the invariant

  /** `a` is an object slot of class i: in a slab of that class, on an object boundary, not the header. */
  ghost predicate IsSlot(h: Heap, i: nat, a: nat)
    requires i < CLASSES && |h.headers| == CLASSES
  {
    var f := a / BYTES_PER_FRAME;
    && f in h.slabs && h.slabs[f] == i
    && a % ClassSize(i) == 0
    && a != FrameAddr(h.headers[i])
  }

  /** Frame `f` is memory the allocator may hand out. */
  ghost predicate Offered(h: Heap, f: nat) {
    h.rangeStart <= f < h.rangeEnd && f !in h.reserved
  }

  ghost predicate SlabsOk(h: Heap) {
    && |h.headers| == CLASSES
    && (forall f :: f in h.slabs ==> Offered(h, f) && f in h.used && h.slabs[f] < CLASSES)
    && (forall i {:trigger h.headers[i]} :: 0 <= i < CLASSES ==> h.headers[i] in h.slabs && h.slabs[h.headers[i]] == i)
  }

  ghost predicate FreeListOk(h: Heap, i: nat)
    requires i < CLASSES && |h.headers| == CLASSES && |h.free| == CLASSES
  {
    && NoDuplicates(h.free[i])
    && forall a :: a in h.free[i] ==> IsSlot(h, i, a)
  }

  ghost predicate LiveOk(h: Heap, a: nat)
    requires |h.headers| == CLASSES && |h.free| == CLASSES && a in h.live
  {
    var layout := h.live[a];
    && layout.align > 0 && a % layout.align == 0
    && if layout.IsLarge()
       then && a % BYTES_PER_FRAME == 0
            && Frames(a / BYTES_PER_FRAME, layout.FrameCount()) <= h.used - h.slabs.Keys
            && (forall f :: f in Frames(a / BYTES_PER_FRAME, layout.FrameCount()) ==> Offered(h, f))
       else && ClassOf(layout.size).Some?
            && var i := ClassOf(layout.size).value;
            && IsSlot(h, i, a) && a !in h.free[i]
  }

  ghost predicate LargeApart(h: Heap, a: nat, b: nat)
    requires a in h.live && b in h.live
  {
    a != b && h.live[a].IsLarge() && h.live[b].IsLarge() ==>
      Frames(a / BYTES_PER_FRAME, h.live[a].FrameCount()) !! Frames(b / BYTES_PER_FRAME, h.live[b].FrameCount())
  }

  ghost predicate Inv(h: Heap) {
    && SlabsOk(h) && h.rangeStart >= 1 && h.reserved <= h.used
    && |h.free| == CLASSES
    && (forall i {:trigger FreeListOk(h, i)} :: 0 <= i < CLASSES ==> FreeListOk(h, i))
    && (forall a {:trigger LiveOk(h, a)} :: a in h.live ==> LiveOk(h, a))
    && (forall a, b {:trigger LargeApart(h, a, b)} :: a in h.live && b in h.live ==> LargeApart(h, a, b))
  }

  // ---------------------------------------------------------------- lists without duplicates

  lemma ConcatNoDuplicates(s: seq<nat>, t: seq<nat>)
    requires NoDuplicates(s) && NoDuplicates(t) && forall x :: x in s ==> x !in t
    ensures NoDuplicates(s + t)
  {
    var u := s + t;
    forall i, j | 0 <= i < j < |u|
      ensures u[i] != u[j]
    {
      assert u[i] == if i < |s| then s[i] else t[i - |s|];
      assert u[j] == if j < |s| then s[j] else t[j - |s|];
      assert i < |s| ==> s[i] in s;
    }
  }

  lemma WithoutElement(s: seq<nat>, k: nat)
    requires NoDuplicates(s) && k < |s|
    ensures NoDuplicates(Without(s, k))
    ensures forall x :: x in Without(s, k) <==> x in s && x != s[k]
  {
    var u := Without(s, k);
    assert forall i :: 0 <= i < |u| ==> u[i] == s[if i < k then i else i + 1];
    forall x | x in s && x != s[k]
      ensures x in u
    {
      var i :| 0 <= i < |s| && s[i] == x;
      assert u[if i < k then i else i - 1] == x;
    }
  }

  // ---------------------------------------------------------------- arithmetic of object slots

  lemma SlotInsideFrame(d: nat, a: nat)
    requires d > 0 && BYTES_PER_FRAME % d == 0 && a % d == 0
    ensures a % BYTES_PER_FRAME + d <= BYTES_PER_FRAME
  {
    var base := BYTES_PER_FRAME * (a / BYTES_PER_FRAME);
    MultipleOfMultiple(d, BYTES_PER_FRAME, a / BYTES_PER_FRAME);
    SumOfMultiples(d, base, BYTES_PER_FRAME);
    MultiplesApart(d, a, base + BYTES_PER_FRAME);
  }

  lemma FrameIsSlotAligned(d: nat, p: nat)
    requires d > 0 && BYTES_PER_FRAME % d == 0
    ensures FrameAddr(p) % d == 0 && FrameAddr(p) / BYTES_PER_FRAME == p
  {
    MultipleOfMultiple(d, BYTES_PER_FRAME, p);
  }

  lemma ClassesDivideFrame(i: nat)
    requires i < CLASSES
    ensures BYTES_PER_FRAME % ClassSize(i) == 0
  {
  }

  /** Objects from `start` on are aligned and increasing. */
  lemma {:induction false} ObjectsFrom(d: nat, start: nat, end: nat)
    requires d > 0 && start % d == 0
    ensures var os := Objects(start, d, end);
            NoDuplicates(os) && forall a :: a in os ==> start <= a < end && a % d == 0
    decreases end - start
  {
    if start < end {
      SumOfMultiples(d, start, d);
      ObjectsFrom(d, start + d, end);
      ConcatNoDuplicates([start], Objects(start + d, d, end));
    }
  }

  lemma ObjectsAreSlots(i: nat, p: nat)
    requires i < CLASSES
    ensures var os := Objects(FrameAddr(p), ClassSize(i), FrameAddr(p + 1));
            && NoDuplicates(os)
            && (forall a :: a in os ==> a / BYTES_PER_FRAME == p && a % ClassSize(i) == 0)
  {
    ClassesDivideFrame(i);
    FrameIsSlotAligned(ClassSize(i), p);
    ObjectsFrom(ClassSize(i), FrameAddr(p), FrameAddr(p + 1));
  }

  // ---------------------------------------------------------------- every operation keeps the invariant

  lemma TakenFreeList(h: Heap, i: nat, k: nat, layout: Layout, j: nat)
    requires Inv(h) && i < CLASSES && j < CLASSES && k < |h.free[i]|
    ensures FreeListOk(Taken(h, i, k, layout), j)
    ensures h.free[i][k] !in Taken(h, i, k, layout).free[i]
  {
    assert FreeListOk(h, i) && FreeListOk(h, j);
    WithoutElement(h.free[i], k);
    var h' := Taken(h, i, k, layout);
    forall a | a in h'.free[j] ensures IsSlot(h', j, a) { assert IsSlot(h, j, a); }
  }

  lemma TakenLive(h: Heap, i: nat, k: nat, layout: Layout, a: nat)
    requires Inv(h) && i < CLASSES && k < |h.free[i]|
    requires layout.align > 0 && !layout.IsLarge() && ClassOf(layout.size) == Some(i)
    requires h.free[i][k] % layout.align == 0
    requires a in Taken(h, i, k, layout).live
    ensures LiveOk(Taken(h, i, k, layout), a)
  {
    assert FreeListOk(h, i);
    WithoutElement(h.free[i], k);
    if a != h.free[i][k] {
      assert LiveOk(h, a);
    } else {
      assert IsSlot(h, i, a);
    }
  }

  /** What is taken from a free list was not live before. */
  lemma FreeIsNotLive(h: Heap, i: nat, a: nat)
    requires Inv(h) && i < CLASSES && a in h.free[i]
    ensures a !in h.live
  {
    assert FreeListOk(h, i) && IsSlot(h, i, a);
    assert a in h.live ==> LiveOk(h, a);
  }

  lemma TakenKeepsInv(h: Heap, i: nat, k: nat, layout: Layout)
    requires Inv(h) && i < CLASSES && k < |h.free[i]|
    requires layout.align > 0 && !layout.IsLarge() && ClassOf(layout.size) == Some(i)
    requires h.free[i][k] % layout.align == 0
    ensures Inv(Taken(h, i, k, layout)) && h.free[i][k] !in h.live
  {
    var h' := Taken(h, i, k, layout);
    FreeIsNotLive(h, i, h.free[i][k]);
    forall j | 0 <= j < CLASSES ensures FreeListOk(h', j) { TakenFreeList(h, i, k, layout, j); }
    forall a | a in h'.live ensures LiveOk(h', a) { TakenLive(h, i, k, layout, a); }
    forall a, b | a in h'.live && b in h'.live
      ensures LargeApart(h', a, b)
    {
      assert a in h.live && b in h.live ==> LargeApart(h, a, b);
    }
  }

  lemma ExtendedFreeList(h: Heap, i: nat, p: nat, j: nat)
    requires Inv(h) && i < CLASSES && j < CLASSES && p !in h.used && Offered(h, p)
    ensures FreeListOk(Extended(h, i, p), j)
  {
    assert FreeListOk(h, j);
    var h' := Extended(h, i, p);
    assert h.headers[i] in h.slabs;
    if j == i {
      ObjectsAreSlots(i, p);
      FrameIsSlotAligned(1, h.headers[i]);
      forall a | a in h'.free[i]
        ensures IsSlot(h', i, a)
      {
        assert a in h.free[i] ==> IsSlot(h, i, a);
      }
      assert forall a :: a in h.free[i] ==> IsSlot(h, i, a) && a / BYTES_PER_FRAME != p;
      ConcatNoDuplicates(Objects(FrameAddr(p), ClassSize(i), FrameAddr(p + 1)), h.free[i]);
    } else {
      assert forall a :: a in h.free[j] ==> IsSlot(h, j, a) ==> IsSlot(h', j, a);
    }
  }

  lemma ExtendedKeepsInv(h: Heap, i: nat, p: nat)
    requires Inv(h) && i < CLASSES && p !in h.used && Offered(h, p)
    ensures Inv(Extended(h, i, p))
  {
    var h' := Extended(h, i, p);
    forall j | 0 <= j < CLASSES ensures FreeListOk(h', j) { ExtendedFreeList(h, i, p, j); }
    forall a | a in h'.live
      ensures LiveOk(h', a)
    {
      assert LiveOk(h, a);
      if !h.live[a].IsLarge() {
        ObjectsAreSlots(i, p);
      }
    }
    forall a, b | a in h'.live && b in h'.live
      ensures LargeApart(h', a, b)
    {
      assert LargeApart(h, a, b);
    }
  }

  /** A live block starts in a used frame that was offered; frame 0 never is. */
  lemma LiveFrameUsed(h: Heap, a: nat)
    requires Inv(h) && a in h.live
    ensures a / BYTES_PER_FRAME in h.used && Offered(h, a / BYTES_PER_FRAME) && a > 0
  {
    assert LiveOk(h, a);
    assert h.live[a].IsLarge() ==> a / BYTES_PER_FRAME in Frames(a / BYTES_PER_FRAME, h.live[a].FrameCount());
  }

  lemma LargeLive(h: Heap, p: nat, layout: Layout, a: nat)
    requires Inv(h) && layout.IsLarge() && RunFree(h.used, p, layout.FrameCount())
    requires h.rangeStart <= p && p + layout.FrameCount() <= h.rangeEnd
    requires layout.align > 0 && BYTES_PER_FRAME % layout.align == 0
    requires a in TakenLarge(h, p, layout).live
    ensures LiveOk(TakenLarge(h, p, layout), a)
  {
    FrameIsSlotAligned(layout.align, p);
    if a != FrameAddr(p) { assert LiveOk(h, a); }
  }

  lemma LargePairApart(h: Heap, p: nat, layout: Layout, a: nat)
    requires Inv(h) && layout.IsLarge() && RunFree(h.used, p, layout.FrameCount())
    requires a in h.live && h.live[a].IsLarge()
    ensures Frames(a / BYTES_PER_FRAME, h.live[a].FrameCount())
         !! Frames(FrameAddr(p) / BYTES_PER_FRAME, layout.FrameCount())
  {
    assert LiveOk(h, a);
    FrameIsSlotAligned(1, p);
  }

  lemma LargeKeepsInv(h: Heap, p: nat, layout: Layout)
    requires Inv(h) && layout.IsLarge() && RunFree(h.used, p, layout.FrameCount())
    requires h.rangeStart <= p && p + layout.FrameCount() <= h.rangeEnd
    requires layout.align > 0 && BYTES_PER_FRAME % layout.align == 0
    ensures Inv(TakenLarge(h, p, layout)) && FrameAddr(p) !in h.live
  {
    var h' := TakenLarge(h, p, layout);
    FrameIsSlotAligned(1, p);
    if FrameAddr(p) in h.live { LiveFrameUsed(h, FrameAddr(p)); }
    forall i | 0 <= i < CLASSES
      ensures FreeListOk(h', i)
    {
      assert FreeListOk(h, i);
      forall a | a in h'.free[i] ensures IsSlot(h', i, a) { assert IsSlot(h, i, a); }
    }
    forall a | a in h'.live ensures LiveOk(h', a) { LargeLive(h, p, layout, a); }
    forall a, b | a in h'.live && b in h'.live
      ensures LargeApart(h', a, b)
    {
      if a == FrameAddr(p) {
        if b in h.live && h.live[b].IsLarge() { LargePairApart(h, p, layout, b); }
      } else if b == FrameAddr(p) {
        if h.live[a].IsLarge() { LargePairApart(h, p, layout, a); }
      } else {
        assert LargeApart(h, a, b);
      }
    }
  }

  lemma DeallocLargeKeepsInv(h: Heap, addr: nat)
    requires Inv(h) && addr in h.live && h.live[addr].IsLarge()
    ensures Inv(Dealloc(h, addr))
  {
    var h' := Dealloc(h, addr);
    assert LiveOk(h, addr);
    forall i | 0 <= i < CLASSES
      ensures FreeListOk(h', i)
    {
      assert FreeListOk(h, i);
      forall a | a in h'.free[i] ensures IsSlot(h', i, a) { assert IsSlot(h, i, a); }
    }
    forall a | a in h'.live
      ensures LiveOk(h', a)
    {
      assert LiveOk(h, a) && LargeApart(h, a, addr);
    }
    forall a, b | a in h'.live && b in h'.live
      ensures LargeApart(h', a, b)
    {
      assert LargeApart(h, a, b);
    }
  }

  lemma DeallocSmallKeepsInv(h: Heap, addr: nat)
    requires Inv(h) && addr in h.live && !h.live[addr].IsLarge()
    ensures Inv(Dealloc(h, addr))
  {
    var h' := Dealloc(h, addr);
    assert LiveOk(h, addr);
    var i := ClassOf(h.live[addr].size).value;
    forall j | 0 <= j < CLASSES
      ensures FreeListOk(h', j)
    {
      assert FreeListOk(h, j);
      if j == i { ConcatNoDuplicates([addr], h.free[i]); }
      forall a | a in h'.free[j] ensures IsSlot(h', j, a) { assert a == addr || IsSlot(h, j, a); }
    }
    forall a | a in h'.live
      ensures LiveOk(h', a)
    {
      assert LiveOk(h, a);
    }
    forall a, b | a in h'.live && b in h'.live
      ensures LargeApart(h', a, b)
    {
      assert LargeApart(h, a, b);
    }
  }

  // ---------------------------------------------------------------- alignments

  /** `Layout` guarantees a power of two. */
  predicate IsPowerOfTwo(n: nat) {
    if n <= 1 then n == 1 else n % 2 == 0 && IsPowerOfTwo(n / 2)
  }

  /** Powers of two divide every larger one. */
  lemma {:induction false} PowersDivide(a: nat, b: nat)
    requires IsPowerOfTwo(a) && IsPowerOfTwo(b) && a <= b
    ensures b % a == 0
  {
    if a > 1 {
      PowersDivide(a / 2, b / 2);
      var q := (b / 2) / (a / 2);
      assert b == a * q;
      Multiple(a, q);
    }
  }

  lemma FrameIsPowerOfTwo()
    ensures IsPowerOfTwo(BYTES_PER_FRAME)
  {
    assert IsPowerOfTwo(8) && IsPowerOfTwo(64) && IsPowerOfTwo(512);
  }

  lemma AlignDividesFrame(align: nat)
    requires IsPowerOfTwo(align) && align <= BYTES_PER_FRAME
    ensures BYTES_PER_FRAME % align == 0
  {
    FrameIsPowerOfTwo();
    PowersDivide(align, BYTES_PER_FRAME);
  }

  // ---------------------------------------------------------------- one call

  lemma TakeAlignedKeepsInv(h: Heap, i: nat, layout: Layout)
    requires Inv(h) && i < CLASSES && layout.align > 0 && !layout.IsLarge() && ClassOf(layout.size) == Some(i)
    ensures Inv(TakeAligned(h, i, layout).0)
  {
    var k := FirstAligned(h.free[i], layout.align);
    if k < |h.free[i]| { TakenKeepsInv(h, i, k, layout); }
  }

  lemma AllocKeepsInv(h: Heap, layout: Layout)
    requires Inv(h) && IsPowerOfTwo(layout.align)
    ensures Inv(Alloc(h, layout).0)
  {
    if layout.IsLarge() {
      var p := FirstFit(h.used, h.rangeStart, h.rangeEnd, layout.FrameCount());
      if layout.align <= BYTES_PER_FRAME && layout.FrameCount() <= h.rangeEnd && p.Some? {
        AlignDividesFrame(layout.align);
        LargeKeepsInv(h, p.value, layout);
      }
    } else if ClassOf(layout.size).Some? {
      var i := ClassOf(layout.size).value;
      var p := FirstFit(h.used, h.rangeStart, h.rangeEnd, 1);
      TakeAlignedKeepsInv(h, i, layout);
      if p.Some? {
        ExtendedKeepsInv(h, i, p.value);
        TakeAlignedKeepsInv(Extended(h, i, p.value), i, layout);
      }
    }
  }

  lemma DeallocKeepsInv(h: Heap, addr: nat)
    requires Inv(h) && addr in h.live
    ensures Inv(Dealloc(h, addr))
  {
    if h.live[addr].IsLarge() { DeallocLargeKeepsInv(h, addr); } else { DeallocSmallKeepsInv(h, addr); }
  }

  /** A block that is handed out is new, non-null, aligned, and the only change to the live blocks. */
  lemma AllocReturnsFreshBlock(h: Heap, layout: Layout)
    requires Inv(h) && IsPowerOfTwo(layout.align)
    ensures var (h', r) := Alloc(h, layout);
            && (r.Block? ==> r.addr !in h.live && r.addr > 0 && r.addr % layout.align == 0
                             && h'.live == h.live[r.addr := layout])
            && (!r.Block? ==> h'.live == h.live)
  {
    var (h', r) := Alloc(h, layout);
    AllocKeepsInv(h, layout);
    if r.Block? {
      assert LiveOk(h', r.addr);
      if layout.IsLarge() {
        AlignDividesFrame(layout.align);
        LargeKeepsInv(h, FirstFit(h.used, h.rangeStart, h.rangeEnd, layout.FrameCount()).value, layout);
      } else {
        var i := ClassOf(layout.size).value;
        var k := FirstAligned(h.free[i], layout.align);
        if k < |h.free[i]| {
          TakenKeepsInv(h, i, k, layout);
        } else {
          var p := FirstFit(h.used, h.rangeStart, h.rangeEnd, 1).value;
          ExtendedKeepsInv(h, i, p);
          TakenKeepsInv(Extended(h, i, p), i, FirstAligned(Extended(h, i, p).free[i], layout.align), layout);
        }
      }
    }
  }

  /** `n` is the least number of frames that hold `size` bytes. */
  ghost predicate FramesFor(size: nat, n: nat) {
    BYTES_PER_FRAME * (n - 1) < size <= BYTES_PER_FRAME * n
  }

  /** `s` is the least start of `n` free frames in the range, the last run excepted. */
  ghost predicate LeastFreeRun(h: Heap, n: nat, s: nat) {
    && h.rangeStart <= s < h.rangeEnd - n && RunFree(h.used, s, n)
    && forall t :: h.rangeStart <= t < s ==> !RunFree(h.used, t, n)
  }

  /** The `n` frames from `s` on are now used by a live block, and nothing else has changed. */
  ghost predicate FramesTaken(h: Heap, layout: Layout, n: nat, s: nat, h': Heap) {
    && (forall f :: f in h'.used <==> f in h.used || s <= f < s + n)
    && h'.live == h.live[BYTES_PER_FRAME * s := layout]
    && h' == h.(used := h'.used, live := h'.live)
  }

  /** What a request for `n` frames comes to, told by the frames alone. */
  ghost predicate LargeOutcome(h: Heap, layout: Layout, n: nat, r: Outcome, h': Heap) {
    && (r.Abort? <==> layout.align > BYTES_PER_FRAME || n > h.rangeEnd)
    && (r.Null? <==>
          && layout.align <= BYTES_PER_FRAME && n <= h.rangeEnd
          && forall s :: h.rangeStart <= s < h.rangeEnd - n ==> !RunFree(h.used, s, n))
    && (r.Block? ==>
          exists s :: LeastFreeRun(h, n, s) && r.addr == BYTES_PER_FRAME * s && FramesTaken(h, layout, n, s, h'))
    && (!r.Block? ==> h' == h)
  }

  lemma FrameCountIsLeast(layout: Layout, n: nat)
    requires FramesFor(layout.size, n)
    ensures layout.FrameCount() == n && n * BYTES_PER_FRAME < layout.size + BYTES_PER_FRAME
  {
  }

  /**
    A request above 2048 bytes panics, fails or succeeds exactly as the free frames say, and takes the least
    number of frames that hold it, from the first place where they are free.
   */
  lemma LargeIff(h: Heap, layout: Layout, n: nat)
    requires |h.free| == CLASSES && layout.IsLarge() && layout.align > 0 && FramesFor(layout.size, n)
    ensures LargeOutcome(h, layout, n, Alloc(h, layout).1, Alloc(h, layout).0)
  {
    FrameCountIsLeast(layout, n);
    var (h', r) := Alloc(h, layout);
    var found := FirstFit(h.used, h.rangeStart, h.rangeEnd, n);
    if r.Block? {
      assert LeastFreeRun(h, n, found.value) && FramesTaken(h, layout, n, found.value, h');
    }
  }

  /** A small block is the first aligned object that its class lists, and taking it uses no frame. */
  lemma ServedFromList(h: Heap, layout: Layout, k: nat)
    requires |h.free| == CLASSES && layout.size < 2048 && layout.align > 0
    requires k < |h.free[ClassOf(layout.size).value]|
    requires h.free[ClassOf(layout.size).value][k] % layout.align == 0
    requires forall j :: 0 <= j < k ==> h.free[ClassOf(layout.size).value][j] % layout.align != 0
    ensures var i := ClassOf(layout.size).value;
      && Alloc(h, layout).1 == Block(h.free[i][k])
      && Alloc(h, layout).0.used == h.used
      && Alloc(h, layout).0.free == h.free[i := h.free[i][..k] + h.free[i][k + 1..]]
  {
    assert FirstAligned(h.free[ClassOf(layout.size).value], layout.align) == k;
  }

  /** Otherwise it is the base of the first free frame, which becomes a page of the class, if that is aligned. */
  lemma ServedFromNewPage(h: Heap, layout: Layout, s: nat)
    requires |h.free| == CLASSES && layout.size < 2048 && IsPowerOfTwo(layout.align)
    requires forall a :: a in h.free[ClassOf(layout.size).value] ==> a % layout.align != 0
    requires LeastFreeRun(h, 1, s)
    ensures Alloc(h, layout).1 ==
      if BYTES_PER_FRAME * s % layout.align == 0 then Block(BYTES_PER_FRAME * s) else Null
    ensures forall f :: f in Alloc(h, layout).0.used <==> f in h.used || f == s
  {
    var i := ClassOf(layout.size).value;
    NoneAligned(h.free[i], layout.align);
    assert FirstFit(h.used, h.rangeStart, h.rangeEnd, 1) == Some(s);
    AfterExtension(h, i, s, layout);
  }

  /** After an extension the page base is at the head of the list, and any alignment up to a frame takes it. */
  lemma ExtensionServes(h: Heap, i: nat, p: nat, layout: Layout)
    requires |h.free| == CLASSES && i < CLASSES && IsPowerOfTwo(layout.align) && layout.align <= BYTES_PER_FRAME
    ensures TakeAligned(Extended(h, i, p), i, layout).1 == Block(FrameAddr(p))
  {
    AlignDividesFrame(layout.align);
    FrameIsSlotAligned(layout.align, p);
  }

  lemma AlignedToFrame(align: nat, a: nat)
    requires IsPowerOfTwo(align) && align > BYTES_PER_FRAME && a % align == 0
    ensures a == FrameAddr(a / BYTES_PER_FRAME)
  {
    FrameIsPowerOfTwo();
    PowersDivide(BYTES_PER_FRAME, align);
    MultipleThrough(BYTES_PER_FRAME, align, a);
  }

  lemma NotOnFrame(align: nat, a: nat)
    requires IsPowerOfTwo(align) && align > BYTES_PER_FRAME && a != FrameAddr(a / BYTES_PER_FRAME)
    ensures a % align != 0
  {
    if a % align == 0 { AlignedToFrame(align, a); }
  }

  lemma {:induction false} NoneAligned(list: seq<nat>, align: nat)
    requires align > 0 && forall a :: a in list ==> a % align != 0
    ensures FirstAligned(list, align) == |list|
    decreases |list|
  {
    if list != [] {
      assert list[0] in list && forall a :: a in list[1..] ==> a in list;
      NoneAligned(list[1..], align);
    }
  }

  /** In a page only the base can be aligned to more than a frame. */
  lemma OnlyBaseIsAligned(i: nat, p: nat, align: nat, a: nat)
    requires i < CLASSES && IsPowerOfTwo(align) && align > BYTES_PER_FRAME
    requires a in Objects(FrameAddr(p), ClassSize(i), FrameAddr(p + 1)) && a % align == 0
    ensures a == FrameAddr(p)
  {
    ObjectsAreSlots(i, p);
    AlignedToFrame(align, a);
  }

  /** What the second look at the list finds after an extension: the base of the new page, or nothing. */
  lemma AfterExtension(h: Heap, i: nat, p: nat, layout: Layout)
    requires |h.free| == CLASSES && i < CLASSES && IsPowerOfTwo(layout.align)
    requires forall a :: a in h.free[i] ==> a % layout.align != 0
    ensures TakeAligned(Extended(h, i, p), i, layout) ==
      if FrameAddr(p) % layout.align == 0
      then (Taken(Extended(h, i, p), i, 0, layout), Block(FrameAddr(p)))
      else (Extended(h, i, p), Null)
  {
    var list := Extended(h, i, p).free[i];
    assert list[0] == FrameAddr(p);
    if FrameAddr(p) % layout.align != 0 {
      if layout.align <= BYTES_PER_FRAME {
        AlignDividesFrame(layout.align);
        FrameIsSlotAligned(layout.align, p);
      }
      forall a | a in list
        ensures a % layout.align != 0
      {
        if a !in h.free[i] && a % layout.align == 0 { OnlyBaseIsAligned(i, p, layout.align, a); }
      }
      NoneAligned(list, layout.align);
    }
  }

  /**
    For every size below 2048: null exactly when no listed object is aligned and no frame can be allocated,
    or the base of the frame that is allocated is not aligned either.
   */
  lemma NullIff(h: Heap, layout: Layout)
    requires Inv(h) && IsPowerOfTwo(layout.align) && layout.size < 2048
    ensures var found := FirstFit(h.used, h.rangeStart, h.rangeEnd, 1);
      Alloc(h, layout).1.Null? <==>
        && (forall a :: a in h.free[ClassOf(layout.size).value] ==> a % layout.align != 0)
        && h.rangeEnd >= 1 && (found.None? || FrameAddr(found.value) % layout.align != 0)
  {
    var i := ClassOf(layout.size).value;
    var found := FirstFit(h.used, h.rangeStart, h.rangeEnd, 1);
    var k := FirstAligned(h.free[i], layout.align);
    if k < |h.free[i]| {
      assert h.free[i][k] in h.free[i];
    } else if found.Some? {
      assert forall a :: a in h.free[i] ==> a % layout.align != 0;
      AfterExtension(h, i, found.value, layout);
    }
  }

  /** For alignments up to a frame, null means that no frame is left. */
  lemma NullMeansOutOfFrames(h: Heap, layout: Layout)
    requires Inv(h) && IsPowerOfTwo(layout.align) && layout.align <= BYTES_PER_FRAME && layout.size < 2048
    ensures Alloc(h, layout).1.Null? ==> FirstFit(h.used, h.rangeStart, h.rangeEnd, 1).None?
  {
    NullIff(h, layout);
    var found := FirstFit(h.used, h.rangeStart, h.rangeEnd, 1);
    if found.Some? {
      AlignDividesFrame(layout.align);
      FrameIsSlotAligned(layout.align, found.value);
    }
  }

  /**
    A null result leaves the heap as it was, unless the alignment is above a frame and a frame was found: then
    that frame stays with the size class, all of it free.
   */
  lemma NullKeepsAFrame(h: Heap, layout: Layout)
    requires Inv(h) && IsPowerOfTwo(layout.align) && Alloc(h, layout).1.Null?
    ensures var found := FirstFit(h.used, h.rangeStart, h.rangeEnd, 1);
      && (Alloc(h, layout).0 != h <==> layout.size < 2048 && layout.align > BYTES_PER_FRAME && found.Some?)
      && (Alloc(h, layout).0 != h ==> Alloc(h, layout).0 == Extended(h, ClassOf(layout.size).value, found.value))
  {
    if layout.size < 2048 {
      NullIff(h, layout);
      var found := FirstFit(h.used, h.rangeStart, h.rangeEnd, 1);
      if found.Some? {
        var i := ClassOf(layout.size).value;
        AfterExtension(h, i, found.value, layout);
        assert RunFree(h.used, found.value, 1) && found.value in Extended(h, i, found.value).used;
        if layout.align <= BYTES_PER_FRAME { NullMeansOutOfFrames(h, layout); }
      }
    }
  }

  /** The objects of a first page stay in its frame, off its header. */
  lemma FirstObjectsInPage(p: nat, i: nat)
    requires i < CLASSES
    ensures forall a :: a in FirstObjects(p, i) ==> FrameAddr(p) < a < FrameAddr(p + 1)
  {
    ClassesDivideFrame(i);
    FrameIsSlotAligned(ClassSize(i), p);
    SumOfMultiples(ClassSize(i), FrameAddr(p), ClassSize(i));
    ObjectsFrom(ClassSize(i), FrameAddr(p) + ClassSize(i), FrameAddr(p + 1));
  }

  /** No object of a first page is aligned to more than a frame: its base holds the header. */
  lemma FirstPageIsUnaligned(i: nat, p: nat, align: nat, a: nat)
    requires i < CLASSES && IsPowerOfTwo(align) && align > BYTES_PER_FRAME && a in FirstObjects(p, i)
    ensures a % align != 0
  {
    FirstObjectsInPage(p, i);
    assert a / BYTES_PER_FRAME == p;
    NotOnFrame(align, a);
  }

  /** A class that has only its first page left serves no such alignment unless the next frame happens to. */
  lemma HugeAlignmentOnFirstPage(h: Heap, i: nat, q: nat, p: nat, layout: Layout)
    requires |h.free| == CLASSES && layout.size < 2048 && ClassOf(layout.size) == Some(i)
    requires h.free[i] == FirstObjects(q, i)
    requires IsPowerOfTwo(layout.align) && layout.align > BYTES_PER_FRAME && h.rangeEnd >= 1
    requires FirstFit(h.used, h.rangeStart, h.rangeEnd, 1) == Some(p) && FrameAddr(p) % layout.align != 0
    ensures Alloc(h, layout) == (Extended(h, i, p), Null)
  {
    forall a | a in h.free[i] ensures a % layout.align != 0 { FirstPageIsUnaligned(i, q, layout.align, a); }
    NoneAligned(h.free[i], layout.align);
    AfterExtension(h, i, p, layout);
  }

  /** Eight bytes aligned to 8192 on a fresh heap: null, and frame 7 is kept for the class. */
  lemma HugeAlignmentFails(headers: seq<nat>, h: Heap, layout: Layout)
    requires headers == [1, 2, 3, 4, 5, 6] && h == Start({}, 1, 21, headers) && layout == Layout(8, 8192)
    ensures Alloc(h, layout) == (Extended(h, 0, 7), Null)
  {
    FirstSixTaken(headers, h.used, h.rangeEnd);
    EightKiB(layout.align);
    HugeAlignmentOnFirstPage(h, 0, headers[0], 7, layout);
  }

  lemma FirstSixTaken(headers: seq<nat>, used: set<nat>, end: nat)
    requires headers == [1, 2, 3, 4, 5, 6] && used == {} + (set f | f in headers) && end > 8
    ensures FirstFit(used, 1, end, 1) == Some(7)
  {
    var p := 1;
    while p < 7
      invariant 1 <= p <= 7 && FirstFit(used, 1, end, 1) == FirstFit(used, p, end, 1)
    {
      assert headers[p - 1] == p;
      SkipIsSafe(used, p, end, 1, 0);
      p := p + 1;
    }
    assert RunFree(used, 7, 1);
  }

  lemma EightKiB(align: nat)
    requires align == 8192
    ensures IsPowerOfTwo(align) && align > BYTES_PER_FRAME && FrameAddr(7) % align != 0
  {
    FrameIsPowerOfTwo();
    assert align / 2 == BYTES_PER_FRAME;
  }

  /** A size of exactly 2048 is never served: no class is strictly larger. */
  lemma ExactlyTwoKiBFails(h: Heap, align: nat)
    requires |h.free| == CLASSES && align > 0
    ensures Alloc(h, Layout(2048, align)) == (h, Null)
  {
  }

  // ---------------------------------------------------------------- disjointness

  /** Everything the allocator or its clients keep in memory. */
  datatype Part = Header(class_: nat) | FreeObject(class_: nat, addr: nat) | Live(addr: nat)

  ghost predicate Present(h: Heap, p: Part)
    requires |h.free| == CLASSES
  {
    match p
    case Header(i) => i < CLASSES
    case FreeObject(i, a) => i < CLASSES && a in h.free[i]
    case Live(a) => a in h.live
  }

  /** Start and length.  A live block is counted with all the memory set aside for it. */
  ghost function Extent(h: Heap, p: Part): (e: (nat, nat))
    requires Inv(h) && Present(h, p)
    ensures p.Live? ==> e.0 == p.addr && e.1 >= h.live[p.addr].size
  {
    match p
    case Header(i) => (FrameAddr(h.headers[i]), PAGE_HEADER_BYTES)
    case FreeObject(i, a) => (a, ClassSize(i))
    case Live(a) =>
      assert LiveOk(h, a);
      if h.live[a].IsLarge() then (a, h.live[a].FrameCount() * BYTES_PER_FRAME)
      else (a, ClassSize(ClassOf(h.live[a].size).value))
  }

  /** A part in a slab: its class, its slot, and that it stays inside its frame. */
  ghost predicate InSlab(h: Heap, p: Part)
    requires Inv(h) && Present(h, p)
  {
    p.Live? ==> !h.live[p.addr].IsLarge()
  }

  ghost function ClassIn(h: Heap, p: Part): (i: nat)
    requires Inv(h) && Present(h, p) && InSlab(h, p)
    ensures i < CLASSES
  {
    match p
    case Header(i) => i
    case FreeObject(i, a) => i
    case Live(a) => assert LiveOk(h, a); ClassOf(h.live[a].size).value
  }

  /** Object slot `a` of class i stays inside its frame. */
  ghost predicate SlotOf(h: Heap, i: nat, a: nat)
    requires i < CLASSES
  {
    && a % ClassSize(i) == 0
    && a / BYTES_PER_FRAME in h.slabs && h.slabs[a / BYTES_PER_FRAME] == i
    && a % BYTES_PER_FRAME + ClassSize(i) <= BYTES_PER_FRAME
  }

  lemma HeaderSlot(h: Heap, i: nat)
    requires Inv(h) && i < CLASSES
    ensures SlotOf(h, i, FrameAddr(h.headers[i]))
  {
    ClassesDivideFrame(i);
    FrameIsSlotAligned(ClassSize(i), h.headers[i]);
    SlotInsideFrame(ClassSize(i), FrameAddr(h.headers[i]));
  }

  lemma ObjectSlot(h: Heap, i: nat, a: nat)
    requires Inv(h) && i < CLASSES && IsSlot(h, i, a)
    ensures SlotOf(h, i, a)
  {
    ClassesDivideFrame(i);
    SlotInsideFrame(ClassSize(i), a);
  }

  lemma SlabPart(h: Heap, p: Part)
    requires Inv(h) && Present(h, p) && InSlab(h, p)
    ensures var (a, n) := Extent(h, p);
            var i := ClassIn(h, p);
            SlotOf(h, i, a) && n <= ClassSize(i) && (!p.Header? ==> a != FrameAddr(h.headers[i]))
  {
    var i, a := ClassIn(h, p), Extent(h, p).0;
    match p
    case Header(_) =>
      HeaderSlot(h, i);
    case FreeObject(_, _) =>
      assert FreeListOk(h, i) && IsSlot(h, i, a);
      ObjectSlot(h, i, a);
    case Live(_) =>
      assert LiveOk(h, a);
      ObjectSlot(h, i, a);
  }

  ghost predicate Apart(e: (nat, nat), f: (nat, nat)) {
    e.0 + e.1 <= f.0 || f.0 + f.1 <= e.0
  }

  lemma DifferentStarts(h: Heap, p: Part, q: Part)
    requires Inv(h) && Present(h, p) && Present(h, q) && InSlab(h, p) && InSlab(h, q) && p != q
    requires ClassIn(h, p) == ClassIn(h, q)
    ensures Extent(h, p).0 != Extent(h, q).0
  {
    SlabPart(h, p);
    SlabPart(h, q);
    if p.FreeObject? && q.Live? { FreeIsNotLive(h, p.class_, p.addr); }
    if q.FreeObject? && p.Live? { FreeIsNotLive(h, q.class_, q.addr); }
  }

  lemma SlotsApart(d: nat, a: nat, n: nat, b: nat, m: nat)
    requires d > 0 && a % d == 0 && b % d == 0 && a != b && n <= d && m <= d
    ensures Apart((a, n), (b, m))
  {
    if a < b { MultiplesApart(d, a, b); } else { MultiplesApart(d, b, a); }
  }

  lemma FramesApart(a: nat, n: nat, b: nat, m: nat)
    requires a / BYTES_PER_FRAME != b / BYTES_PER_FRAME
    requires a % BYTES_PER_FRAME + n <= BYTES_PER_FRAME && b % BYTES_PER_FRAME + m <= BYTES_PER_FRAME
    ensures Apart((a, n), (b, m))
  {
  }

  /** The same for two slots of the heap, whatever they hold. */
  lemma SlotPartsApart(h: Heap, i: nat, a: nat, n: nat, j: nat, b: nat, m: nat)
    requires i < CLASSES && j < CLASSES && SlotOf(h, i, a) && SlotOf(h, j, b)
    requires n <= ClassSize(i) && m <= ClassSize(j) && (i == j ==> a != b)
    ensures Apart((a, n), (b, m))
  {
    if i == j {
      SlotsApart(ClassSize(i), a, n, b, m);
    } else {
      FramesApart(a, n, b, m);
    }
  }

  lemma SlabPartsApart(h: Heap, p: Part, q: Part)
    requires Inv(h) && Present(h, p) && Present(h, q) && InSlab(h, p) && InSlab(h, q) && p != q
    ensures Apart(Extent(h, p), Extent(h, q))
  {
    var i, j := ClassIn(h, p), ClassIn(h, q);
    var (a, n) := Extent(h, p);
    var (b, m) := Extent(h, q);
    assert SlotOf(h, i, a) && n <= ClassSize(i) by { SlabPart(h, p); }
    assert SlotOf(h, j, b) && m <= ClassSize(j) by { SlabPart(h, q); }
    if i == j { DifferentStarts(h, p, q); }
    SlotPartsApart(h, i, a, n, j, b, m);
  }

  /** A large block lies in frames of its own. */
  lemma LargePart(h: Heap, a: nat, q: Part)
    requires Inv(h) && a in h.live && h.live[a].IsLarge() && Present(h, q) && q != Live(a)
    ensures Apart(Extent(h, Live(a)), Extent(h, q))
  {
    assert LiveOk(h, a);
    var f, n := a / BYTES_PER_FRAME, h.live[a].FrameCount();
    var (b, m) := Extent(h, q);
    if InSlab(h, q) {
      SlabPart(h, q);
      assert b / BYTES_PER_FRAME !in Frames(f, n);
    } else {
      assert LiveOk(h, b) && LargeApart(h, a, b);
      assert f in Frames(f, n) && b / BYTES_PER_FRAME in Frames(b / BYTES_PER_FRAME, h.live[b].FrameCount());
    }
  }

  /** Live blocks, free objects and page headers never overlap. */
  lemma PartsNeverOverlap(h: Heap, p: Part, q: Part)
    requires Inv(h) && Present(h, p) && Present(h, q) && p != q
    ensures Apart(Extent(h, p), Extent(h, q))
  {
    if !InSlab(h, p) {
      LargePart(h, p.addr, q);
    } else if !InSlab(h, q) {
      LargePart(h, q.addr, p);
    } else {
      SlabPartsApart(h, p, q);
    }
  }

  /** Every byte of every part lies in a frame marked used, and one that was offered. */
  lemma PartsInUsedFrames(h: Heap, p: Part, x: nat)
    requires Inv(h) && Present(h, p) && Extent(h, p).0 <= x < Extent(h, p).0 + Extent(h, p).1
    ensures x / BYTES_PER_FRAME in h.used && Offered(h, x / BYTES_PER_FRAME)
  {
    var a := Extent(h, p).0;
    if InSlab(h, p) {
      SlabPart(h, p);
      assert x / BYTES_PER_FRAME == a / BYTES_PER_FRAME;
    } else {
      assert LiveOk(h, a);
      assert x / BYTES_PER_FRAME in Frames(a / BYTES_PER_FRAME, h.live[a].FrameCount());
    }
  }

  // ---------------------------------------------------------------- every run

  datatype Op = AllocOp(layout: Layout) | DeallocOp(addr: nat)

  /** The heap after `ObjectAllocator::new`: six frames, each a header slot followed by free objects. */
  ghost function Start(used: set<nat>, rangeStart: nat, rangeEnd: nat, headers: seq<nat>): Heap
    requires |headers| == CLASSES
  {
    Heap(used, used + (set f | f in headers), rangeStart, rangeEnd, headers,
         map f | f in headers :: IndexIn(headers, f),
         seq(CLASSES, i requires 0 <= i < CLASSES => FirstObjects(headers[i], i)),
         map[])
  }

  /** The objects of a page that also holds a header of one slot. */
  ghost function FirstObjects(p: nat, i: nat): seq<nat>
    requires i < CLASSES
  {
    Objects(FrameAddr(p) + ClassSize(i), ClassSize(i), FrameAddr(p + 1))
  }

  ghost function IndexIn(s: seq<nat>, x: nat): (i: nat)
    requires x in s
    ensures i < |s| && s[i] == x
  {
    var i :| 0 <= i < |s| && s[i] == x; i
  }

  lemma StartInv(used: set<nat>, rangeStart: nat, rangeEnd: nat, headers: seq<nat>)
    requires |headers| == CLASSES && NoDuplicates(headers) && rangeStart >= 1
    requires forall f :: f in headers ==> rangeStart <= f < rangeEnd && f !in used
    ensures Inv(Start(used, rangeStart, rangeEnd, headers))
  {
    var h := Start(used, rangeStart, rangeEnd, headers);
    forall i | 0 <= i < CLASSES
      ensures FreeListOk(h, i)
    {
      var d, base := ClassSize(i), FrameAddr(headers[i]);
      ClassesDivideFrame(i);
      FrameIsSlotAligned(d, headers[i]);
      SumOfMultiples(d, base, d);
      ObjectsFrom(d, base + d, FrameAddr(headers[i] + 1));
      assert headers[i] in headers;
    }
  }

  /** Deallocations name a live block; that is what the caller of `dealloc` owes. */
  ghost predicate OpStep(h: Heap, op: Op, r: Outcome, h': Heap) {
    && |h.free| == CLASSES
    && match op
       case AllocOp(layout) => IsPowerOfTwo(layout.align) && (h', r) == Alloc(h, layout)
       case DeallocOp(addr) => addr in h.live && h' == Dealloc(h, addr)
  }

  ghost predicate IsRun(heaps: seq<Heap>, ops: seq<Op>, results: seq<Outcome>) {
    && |heaps| == |ops| + 1 && |results| == |ops|
    && forall i :: 0 <= i < |ops| ==> OpStep(heaps[i], ops[i], results[i], heaps[i + 1])
  }

  lemma {:induction false} RunInv(heaps: seq<Heap>, ops: seq<Op>, results: seq<Outcome>, i: nat)
    requires IsRun(heaps, ops, results) && Inv(heaps[0]) && i <= |ops|
    ensures Inv(heaps[i])
    ensures heaps[i].reserved == heaps[0].reserved
    ensures heaps[i].rangeStart == heaps[0].rangeStart && heaps[i].rangeEnd == heaps[0].rangeEnd
  {
    if i > 0 {
      RunInv(heaps, ops, results, i - 1);
      assert OpStep(heaps[i - 1], ops[i - 1], results[i - 1], heaps[i - 1 + 1]);
      match ops[i - 1]
      case AllocOp(layout) => AllocKeepsInv(heaps[i - 1], layout);
      case DeallocOp(addr) => DeallocKeepsInv(heaps[i - 1], addr);
    }
  }

  /**
    In every state of every run: live blocks, free objects and page headers are pairwise disjoint
    and lie in used frames that were offered, and every live block is non-null, aligned and large enough.
   */
  lemma AllocatorSafety(heaps: seq<Heap>, ops: seq<Op>, results: seq<Outcome>, i: nat)
    requires IsRun(heaps, ops, results) && Inv(heaps[0]) && i <= |ops|
    ensures var h := heaps[i];
            && Inv(h)
            && (forall p, q :: Present(h, p) && Present(h, q) && p != q ==> Apart(Extent(h, p), Extent(h, q)))
            && (forall p, x :: Present(h, p) && Extent(h, p).0 <= x < Extent(h, p).0 + Extent(h, p).1 ==>
                  x / BYTES_PER_FRAME in h.used && Offered(h, x / BYTES_PER_FRAME))
            && (forall a :: a in h.live ==> h.live[a].align > 0 && a % h.live[a].align == 0 && a > 0)
  {
    RunInv(heaps, ops, results, i);
    var h := heaps[i];
    forall p, q | Present(h, p) && Present(h, q) && p != q
      ensures Apart(Extent(h, p), Extent(h, q))
    {
      PartsNeverOverlap(h, p, q);
    }
    forall p, x | Present(h, p) && Extent(h, p).0 <= x < Extent(h, p).0 + Extent(h, p).1
      ensures x / BYTES_PER_FRAME in h.used && Offered(h, x / BYTES_PER_FRAME)
    {
      PartsInUsedFrames(h, p, x);
    }
    forall a | a in h.live
      ensures h.live[a].align > 0 && a % h.live[a].align == 0 && a > 0
    {
      assert LiveOk(h, a);
      LiveFrameUsed(h, a);
    }
  }

  /** A heap started on the bitmap of a memory map, in whatever order, offers only memory the map calls available. */
  lemma OfferedIsAvailable(es: seq<Descriptor>, h: Heap, f: nat)
    requires PageAligned(es) && h.reserved == Marks(es).0 && h.rangeEnd == Marks(es).1 / BYTES_PER_FRAME
    requires Offered(h, f)
    ensures Available(es, f)
  {
    UnmarkedIsAvailable(es, f);
  }

  /** With the available entries in order it offers all of that memory, except for frame 0. */
  lemma OfferedIffAvailable(es: seq<Descriptor>, h: Heap, f: nat)
    requires PageAligned(es) && Disjoint(es) && AvailableInOrder(es)
    requires h.reserved == Marks(es).0 && h.rangeStart == 1 && h.rangeEnd == Marks(es).1 / BYTES_PER_FRAME
    ensures Offered(h, f) <==> f != 0 && Available(es, f)
  {
    FreeIffAvailable(es, f);
  }

  /**
    From the firmware's memory map to the clients: whatever is allocated and freed, every byte of every
    live block, free object and page header is memory that the map calls available, and no entry of another
    kind (runtime services, say) covers it.
   */
  lemma OnlyAvailableMemoryIsUsed(es: seq<Descriptor>, headers: seq<nat>,
                                  heaps: seq<Heap>, ops: seq<Op>, results: seq<Outcome>, i: nat, p: Part, x: nat)
    requires PageAligned(es) && |headers| == CLASSES && NoDuplicates(headers)
    requires forall f :: f in headers ==> 1 <= f < Marks(es).1 / BYTES_PER_FRAME && f !in Marks(es).0
    requires IsRun(heaps, ops, results) && i <= |ops|
    requires heaps[0] == Start(Marks(es).0, 1, Marks(es).1 / BYTES_PER_FRAME, headers)
    requires Inv(heaps[i]) && Present(heaps[i], p)
    requires Extent(heaps[i], p).0 <= x < Extent(heaps[i], p).0 + Extent(heaps[i], p).1
    ensures Available(es, x / BYTES_PER_FRAME)
    ensures forall k :: 0 <= k < |es| && es[k].Covers(x / BYTES_PER_FRAME) ==> es[k].kind in USABLE_AFTER_BOOT
  {
    forall k | 0 <= k < |es| && es[k].Covers(x / BYTES_PER_FRAME) && es[k].kind !in USABLE_AFTER_BOOT
      ensures x / BYTES_PER_FRAME in Marks(es).0
    {
      OthersAreMarked(es, k, x / BYTES_PER_FRAME);
    }
    StartInv(Marks(es).0, 1, Marks(es).1 / BYTES_PER_FRAME, headers);
    RunInv(heaps, ops, results, i);
    PartsInUsedFrames(heaps[i], p, x);
    OfferedIsAvailable(es, heaps[i], x / BYTES_PER_FRAME);
  }
}
