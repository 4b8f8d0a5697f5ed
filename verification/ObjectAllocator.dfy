/**
  The allocator as it is stored: a packed bitmap of frames, and free lists whose links
  live in the free objects themselves and whose heads live in the page headers.
 */
module ObjectAllocator {
  import opened Common
  import opened FrameBitmap
  import opened Multiples
  import opened SlabHeap

  /** One link word per address: `next_free` of an object header, `free_list.head` of a page header; 0 is None. */
  type Memory = map<nat, nat>

  ghost predicate Chain(mem: Memory, p: nat, list: seq<nat>)
    decreases |list|
  {
    if list == [] then p == 0
    else p == list[0] && p != 0 && p in mem && Chain(mem, mem[p], list[1..])
  }

  /** The list headed at `hd` is `list`. */
  ghost predicate ListAt(mem: Memory, hd: nat, list: seq<nat>) {
    hd in mem && Chain(mem, mem[hd], list)
  }

  ghost predicate SameOn(mem: Memory, mem': Memory, s: seq<nat>) {
    forall a :: a in s && a in mem ==> a in mem' && mem'[a] == mem[a]
  }

  lemma {:induction false} ChainKept(mem: Memory, mem': Memory, p: nat, list: seq<nat>)
    requires Chain(mem, p, list) && SameOn(mem, mem', list)
    ensures Chain(mem', p, list)
    decreases |list|
  {
    if list != [] {
      assert list[0] in list;
      ChainKept(mem, mem', mem[p], list[1..]);
    }
  }

  lemma PushedChain(mem: Memory, hd: nat, obj: nat, list: seq<nat>)
    requires ListAt(mem, hd, list) && obj != 0 && obj != hd && obj !in list && hd !in list
    ensures ListAt(mem[obj := mem[hd]][hd := obj], hd, [obj] + list)
  {
    var mem' := mem[obj := mem[hd]][hd := obj];
    ChainKept(mem, mem', mem[hd], list);
    assert ([obj] + list)[1..] == list;
  }

  /** The j-th node of a chain is the j-th element, and what follows it is the rest. */
  lemma {:induction false} ChainAt(mem: Memory, p: nat, list: seq<nat>, j: nat)
    requires Chain(mem, p, list) && j < |list|
    ensures list[j] != 0 && list[j] in mem && Chain(mem, mem[list[j]], list[j + 1..])
    decreases j
  {
    if j > 0 {
      ChainAt(mem, mem[p], list[1..], j - 1);
      assert list[1..][j..] == list[j + 1..];
    }
  }

  /** Redirecting the link of element j - 1 past element j takes element j out. */
  lemma {:induction false} UnlinkedChain(mem: Memory, p: nat, list: seq<nat>, j: nat)
    requires Chain(mem, p, list) && NoDuplicates(list) && 1 <= j < |list|
    requires list[j] in mem && list[j - 1] in mem
    ensures Chain(mem[list[j - 1] := mem[list[j]]], p, Without(list, j))
    decreases j
  {
    var mem' := mem[list[j - 1] := mem[list[j]]];
    var rest := list[1..];
    assert NoDuplicates(rest);
    if j == 1 {
      ChainAt(mem, p, list, 1);
      assert Without(list, 1) == [list[0]] + list[2..];
      ChainKept(mem, mem', mem[list[1]], list[2..]);
      assert Without(list, 1)[1..] == list[2..];
    } else {
      UnlinkedChain(mem, mem[p], rest, j - 1);
      assert Without(list, j) == [list[0]] + Without(rest, j - 1);
      assert Without(list, j)[1..] == Without(rest, j - 1);
      assert list[0] != list[j - 1];
    }
  }

  // ---------------------------------------------------------------- the free list

  class FreeLists {
    var mem: Memory

    constructor ()
      ensures mem == map[]
    {
      mem := map[];
    }

    method PushFront(hd: nat, obj: nat, ghost list: seq<nat>)
      requires ListAt(mem, hd, list) && obj != 0 && obj != hd && obj !in list && hd !in list
      modifies this
      ensures mem == old(mem)[obj := old(mem)[hd]][hd := obj]
      ensures ListAt(mem, hd, [obj] + list)
    {
      PushedChain(mem, hd, obj, list);
      mem := mem[obj := mem[hd]];
      mem := mem[hd := obj];
    }

    /** Takes out the first node that is a multiple of `align`; 0 when there is none. */
    method PopFilter(hd: nat, align: nat, ghost list: seq<nat>) returns (obj: nat)
      requires ListAt(mem, hd, list) && align > 0 && NoDuplicates(list) && hd !in list
      modifies this
      ensures var k := FirstAligned(list, align);
              if k == |list| then obj == 0 && mem == old(mem)
              else obj == list[k] && obj != 0 && ListAt(mem, hd, Without(list, k))
      ensures forall a :: a in old(mem) && a != hd && a !in list ==> a in mem && mem[a] == old(mem)[a]
    {
      var head := mem[hd];
      if head == 0 {
        return 0;
      }
      if head % align == 0 {
        assert Without(list, 0) == list[1..];
        ChainKept(mem, mem[hd := mem[head]], mem[head], list[1..]);
        mem := mem[hd := mem[head]];
        return head;
      }
      var prev := head;
      ghost var j := 0;
      ChainAt(mem, head, list, 0);
      while mem[prev] != 0
        invariant mem == old(mem) && j < |list| && prev == list[j] && prev in mem
        invariant Chain(mem, mem[prev], list[j + 1..])
        invariant forall i :: 0 <= i <= j ==> list[i] % align != 0
        decreases |list| - j
      {
        obj := mem[prev];
        assert obj == list[j + 1];
        ChainAt(mem, head, list, j + 1);
        if obj % align == 0 {
          FirstAlignedIs(list, align, j + 1);
          UnlinkedChain(mem, head, list, j + 1);
          assert list[j] in list;
          mem := mem[prev := mem[obj]];
          return;
        }
        prev := obj;
        j := j + 1;
      }
      FirstAlignedIs(list, align, |list|);
      obj := 0;
    }

    /** Threads the objects of a page onto the list, from the highest address down to `start`. */
    method Thread(hd: nat, sz: nat, start: nat, end: nat, ghost list: seq<nat>)
      requires ListAt(mem, hd, list) && sz > 0 && sz <= start && start % sz == 0 && end % sz == 0 && start <= end
      requires forall a :: start <= a < end ==> a !in list && a != hd
      requires hd !in list
      modifies this
      ensures ListAt(mem, hd, Objects(start, sz, end) + list)
      ensures forall a :: a in old(mem) && a != hd && !(start <= a < end) ==> a in mem && mem[a] == old(mem)[a]
    {
      var ptr := end - sz;
      MultiplesOrder(sz, start, end);
      ghost var done := [];
      assert [] + list == list;
      while ptr >= start
        invariant ptr >= start - sz && (ptr + sz) % sz == 0 && ptr + sz <= end
        invariant done == Objects(ptr + sz, sz, end)
        invariant forall a :: a in done ==> ptr + sz <= a < end
        invariant ListAt(mem, hd, done + list)
        invariant forall a :: a in old(mem) && a != hd && !(start <= a < end) ==> a in mem && mem[a] == old(mem)[a]
        decreases ptr
      {
        SumOfMultiples(sz, ptr + sz, sz);
        PushFront(hd, ptr, done + list);
        assert [ptr] + (done + list) == ([ptr] + done) + list;
        done := [ptr] + done;
        ptr := ptr - sz;
      }
      if ptr + sz > start { MultiplesApart(sz, start, ptr + sz); }
    }
  }

  /** The space reserved for the page header is one object in every class, and the header fits it. */
  lemma HeaderTakesOneSlot(i: nat)
    requires i < CLASSES
    ensures (RESERVED_BYTES + ClassSize(i) - 1) / ClassSize(i) * ClassSize(i) == ClassSize(i) >= PAGE_HEADER_BYTES
  {
    assert [64, 128, 256, 512, 1024, 2048][i] == ClassSize(i);
  }

  lemma FirstAlignedIs(list: seq<nat>, align: nat, k: nat)
    requires align > 0 && k <= |list| && (k < |list| ==> list[k] % align == 0)
    requires forall i :: 0 <= i < k ==> list[i] % align != 0
    ensures FirstAligned(list, align) == k
  {
  }

  lemma MultiplesOrder(d: nat, a: nat, b: nat)
    requires d > 0 && a % d == 0 && b % d == 0 && a <= b
    ensures b - d >= a - d && (a < b ==> a + d <= b)
  {
    if a < b { MultiplesApart(d, a, b); }
  }

  // ---------------------------------------------------------------- all six lists

  /** The page headers of `h` head its free lists. */
  ghost predicate Represents(mem: Memory, h: Heap) {
    && |h.headers| == CLASSES && |h.free| == CLASSES
    && forall i {:trigger h.free[i]} :: 0 <= i < CLASSES ==> ListAt(mem, FrameAddr(h.headers[i]), h.free[i])
  }

  /** Nothing of list j is a node or the head of list i. */
  lemma ListsApart(h: Heap, i: nat, j: nat)
    requires Inv(h) && i < CLASSES && j < CLASSES
    ensures FrameAddr(h.headers[j]) !in h.free[i]
    ensures i != j ==> FrameAddr(h.headers[i]) != FrameAddr(h.headers[j])
    ensures i != j ==> forall a :: a in h.free[j] ==> a !in h.free[i] && a != FrameAddr(h.headers[i])
  {
    assert FreeListOk(h, i) && FreeListOk(h, j);
    FrameIsSlotAligned(1, h.headers[i]);
    FrameIsSlotAligned(1, h.headers[j]);
    var b := FrameAddr(h.headers[j]);
    assert b in h.free[i] ==> IsSlot(h, i, b);
    forall a | a in h.free[j]
      ensures i != j ==> a !in h.free[i] && a != FrameAddr(h.headers[i])
    {
      assert IsSlot(h, j, a);
      assert a in h.free[i] ==> IsSlot(h, i, a);
    }
  }

  /** Address `a` is neither a node nor the head of the list of class j. */
  ghost predicate ClearOf(h: Heap, j: nat, a: nat)
    requires j < CLASSES && |h.headers| == CLASSES && |h.free| == CLASSES
  {
    a !in h.free[j] && a != FrameAddr(h.headers[j])
  }

  /** A change that stays within list i, its head, and a range outside every other list leaves the others alone. */
  lemma OtherListsKept(mem: Memory, mem': Memory, h: Heap, i: nat, lo: nat, hi: nat)
    requires Inv(h) && Represents(mem, h) && i < CLASSES
    requires forall a :: a in mem && a != FrameAddr(h.headers[i]) && a !in h.free[i] && !(lo <= a < hi) ==>
      a in mem' && mem'[a] == mem[a]
    requires forall j, a {:trigger ClearOf(h, j, a)} :: 0 <= j < CLASSES && j != i && lo <= a < hi ==> ClearOf(h, j, a)
    ensures forall j {:trigger h.free[j]} :: 0 <= j < CLASSES && j != i ==>
      ListAt(mem', FrameAddr(h.headers[j]), h.free[j])
  {
    forall j | 0 <= j < CLASSES && j != i
      ensures ListAt(mem', FrameAddr(h.headers[j]), h.free[j])
    {
      ListsApart(h, i, j);
      ListsApart(h, j, i);
      assert ListAt(mem, FrameAddr(h.headers[j]), h.free[j]);
      assert forall a :: a in h.free[j] && lo <= a < hi ==> !ClearOf(h, j, a);
      assert lo <= FrameAddr(h.headers[j]) < hi ==> !ClearOf(h, j, FrameAddr(h.headers[j]));
      ChainKept(mem, mem', mem[FrameAddr(h.headers[j])], h.free[j]);
    }
  }

  /** When list i and the others are in place, the whole heap is. */
  lemma RepresentsAgain(mem: Memory, h: Heap, h': Heap, i: nat)
    requires |h.headers| == CLASSES && |h.free| == CLASSES && |h'.free| == CLASSES && i < CLASSES
    requires h'.headers == h.headers && h'.free == h.free[i := h'.free[i]]
    requires forall j {:trigger h.free[j]} :: 0 <= j < CLASSES && j != i ==>
      ListAt(mem, FrameAddr(h.headers[j]), h.free[j])
    requires ListAt(mem, FrameAddr(h.headers[i]), h'.free[i])
    ensures Represents(mem, h')
  {
    forall j | 0 <= j < CLASSES
      ensures ListAt(mem, FrameAddr(h'.headers[j]), h'.free[j])
    {
      assert j != i ==> h'.free[j] == h.free[j];
    }
  }

  class Allocator {
    const frames: BitMapMemoryManager
    const lists: FreeLists
    var pages: seq<nat>
    ghost var heap: Heap

    ghost predicate Valid()
      reads this, frames, frames.allocMap, lists
    {
      && frames.Valid()
      && heap.used == frames.Used() && heap.rangeStart == frames.rangeStart && heap.rangeEnd == frames.rangeEnd
      && Inv(heap)
      && |pages| == CLASSES && (forall i :: 0 <= i < CLASSES ==> pages[i] == FrameAddr(heap.headers[i]))
      && Represents(lists.mem, heap)
    }

    /** Packs six finished pages into the allocator. */
    constructor (frames: BitMapMemoryManager, lists: FreeLists, pages: seq<nat>, ghost heap: Heap)
      requires frames.Valid()
      requires heap.used == frames.Used() && heap.rangeStart == frames.rangeStart && heap.rangeEnd == frames.rangeEnd
      requires Inv(heap) && Represents(lists.mem, heap)
      requires |pages| == CLASSES && forall i :: 0 <= i < CLASSES ==> pages[i] == FrameAddr(heap.headers[i])
      ensures Valid() && this.frames == frames && this.lists == lists && this.heap == heap
    {
      this.frames, this.lists, this.pages, this.heap := frames, lists, pages, heap;
    }

    /** `pop_filter` on one class, with the other lists undisturbed. */
    method PopAligned(i: nat, layout: Layout) returns (addr: nat)
      requires Valid() && i < CLASSES && layout.align > 0 && !layout.IsLarge() && ClassOf(layout.size) == Some(i)
      modifies this`heap, lists
      ensures Valid()
      ensures (heap, if addr == 0 then Null else Block(addr)) == TakeAligned(old(heap), i, layout)
    {
      ghost var h, mem := heap, lists.mem;
      ghost var list := h.free[i];
      assert FreeListOk(h, i);
      ListsApart(h, i, i);
      addr := lists.PopFilter(pages[i], layout.align, list);
      TakeAlignedKeepsInv(h, i, layout);
      heap := TakeAligned(h, i, layout).0;
      OtherListsKept(mem, lists.mem, h, i, 0, 0);
      RepresentsAgain(lists.mem, h, heap, i);
    }

    /** Frame `p`, just marked used, becomes a page of class i. */
    method Extend(i: nat, p: nat)
      requires frames.Valid() && i < CLASSES && Offered(heap, p) && p !in heap.used
      requires frames.Used() == heap.used + Frames(p, 1)
      requires heap.rangeStart == frames.rangeStart && heap.rangeEnd == frames.rangeEnd
      requires Inv(heap) && Represents(lists.mem, heap)
      requires |pages| == CLASSES && forall i :: 0 <= i < CLASSES ==> pages[i] == FrameAddr(heap.headers[i])
      modifies this`heap, lists
      ensures Valid() && heap == Extended(old(heap), i, p)
    {
      ghost var h, mem := heap, lists.mem;
      var sz, page := ClassSize(i), p * BYTES_PER_FRAME;
      FreshPageApart(h, p);
      ListsApart(h, i, i);
      ClassesDivideFrame(i);
      FrameIsSlotAligned(sz, p);
      FrameIsSlotAligned(sz, p + 1);
      assert ListAt(mem, FrameAddr(h.headers[i]), h.free[i]);
      forall a | page <= a < page + BYTES_PER_FRAME
        ensures a !in h.free[i] && a != pages[i]
      {
        assert ClearOf(h, i, a);
      }
      lists.Thread(pages[i], sz, page, page + BYTES_PER_FRAME, h.free[i]);
      heap := Extended(h, i, p);
      ThreadedRepresents(mem, lists.mem, h, i, p);
    }

    method Alloc(layout: Layout) returns (r: Outcome)
      requires Valid() && IsPowerOfTwo(layout.align)
      modifies this`heap, lists, frames.allocMap
      ensures Valid() && (heap, r) == SlabHeap.Alloc(old(heap), layout)
      ensures layout.IsLarge() ==>
        forall n :: FramesFor(layout.size, n) ==> LargeOutcome(old(heap), layout, n, r, heap)
    {
      AllocKeepsInv(heap, layout);
      if layout.size > 2048 {
        r := AllocLarge(layout);
        return;
      }
      var class_ := ClassOf(layout.size);
      if class_.None? {
        return Null;
      }
      var addr := PopAligned(class_.value, layout);
      if addr != 0 {
        return Block(addr);
      }
      if frames.rangeEnd < 1 {
        return Abort;
      }
      var p := frames.Allocate(1);
      if p.None? {
        return Null;
      }
      Extend(class_.value, p.value);
      addr := PopAligned(class_.value, layout);
      r := if addr == 0 then Null else Block(addr);
    }

    method AllocLarge(layout: Layout) returns (r: Outcome)
      requires Valid() && IsPowerOfTwo(layout.align) && layout.IsLarge()
      modifies this`heap, frames.allocMap
      ensures Valid() && (heap, r) == SlabHeap.Alloc(old(heap), layout)
      ensures forall n :: FramesFor(layout.size, n) ==> LargeOutcome(old(heap), layout, n, r, heap)
    {
      AllocKeepsInv(heap, layout);
      forall n | FramesFor(layout.size, n)
        ensures LargeOutcome(heap, layout, n, SlabHeap.Alloc(heap, layout).1, SlabHeap.Alloc(heap, layout).0)
      {
        LargeIff(heap, layout, n);
      }
      if layout.align > BYTES_PER_FRAME || layout.FrameCount() > frames.rangeEnd {
        return Abort;
      }
      var p := frames.Allocate(layout.FrameCount());
      if p.None? {
        return Null;
      }
      heap := TakenLarge(heap, p.value, layout);
      r := Block(p.value * BYTES_PER_FRAME);
    }

    /** `layout` is the one the block was allocated with. */
    method Dealloc(ptr: nat, layout: Layout)
      requires Valid() && ptr in heap.live && heap.live[ptr] == layout
      modifies this`heap, lists, frames.allocMap
      ensures Valid() && heap == SlabHeap.Dealloc(old(heap), ptr)
    {
      if layout.size > 2048 {
        DeallocLarge(ptr, layout);
      } else {
        DeallocSmall(ptr, layout);
      }
    }

    method DeallocLarge(ptr: nat, layout: Layout)
      requires Valid() && ptr in heap.live && heap.live[ptr] == layout && layout.IsLarge()
      modifies this`heap, frames.allocMap
      ensures Valid() && heap == SlabHeap.Dealloc(old(heap), ptr)
    {
      DeallocKeepsInv(heap, ptr);
      assert LiveOk(heap, ptr);
      assert ptr / BYTES_PER_FRAME + layout.FrameCount() - 1 in frames.Used();
      heap := SlabHeap.Dealloc(heap, ptr);
      frames.Free(ptr / BYTES_PER_FRAME, layout.FrameCount());
    }

    method DeallocSmall(ptr: nat, layout: Layout)
      requires Valid() && ptr in heap.live && heap.live[ptr] == layout && !layout.IsLarge()
      modifies this`heap, lists
      ensures Valid() && heap == SlabHeap.Dealloc(old(heap), ptr)
    {
      ghost var h, mem := heap, lists.mem;
      DeallocKeepsInv(h, ptr);
      assert LiveOk(h, ptr);
      var i := ClassOf(layout.size).value;
      ListsApart(h, i, i);
      assert ListAt(mem, FrameAddr(h.headers[i]), h.free[i]);
      LiveNotInAnyList(h, ptr);
      lists.PushFront(pages[i], ptr, h.free[i]);
      heap := SlabHeap.Dealloc(h, ptr);
      OtherListsKept(mem, lists.mem, h, i, ptr, ptr + 1);
      RepresentsAgain(lists.mem, h, heap, i);
    }
  }

  /** Addresses in an unused frame belong to no list. */
  /** Threading a fresh page onto the list of class i makes the memory represent the extended heap. */
  lemma ThreadedRepresents(mem: Memory, mem': Memory, h: Heap, i: nat, p: nat)
    requires Inv(h) && Represents(mem, h) && i < CLASSES && p !in h.used && Offered(h, p)
    requires ListAt(mem', FrameAddr(h.headers[i]),
                    Objects(FrameAddr(p), ClassSize(i), FrameAddr(p + 1)) + h.free[i])
    requires forall a :: a in mem && a != FrameAddr(h.headers[i]) && !(FrameAddr(p) <= a < FrameAddr(p + 1)) ==>
      a in mem' && mem'[a] == mem[a]
    ensures Inv(Extended(h, i, p)) && Represents(mem', Extended(h, i, p))
  {
    ExtendedKeepsInv(h, i, p);
    var lo, hi := FrameAddr(p), FrameAddr(p + 1);
    FreshPageApart(h, p);
    OtherListsKept(mem, mem', h, i, lo, hi);
    RepresentsAgain(mem', h, Extended(h, i, p), i);
  }

  lemma FreshPageApart(h: Heap, p: nat)
    requires Inv(h) && p !in h.used
    ensures forall i, a {:trigger ClearOf(h, i, a)} ::
      0 <= i < CLASSES && FrameAddr(p) <= a < FrameAddr(p + 1) ==> ClearOf(h, i, a)
  {
    forall i, a | 0 <= i < CLASSES && FrameAddr(p) <= a < FrameAddr(p + 1)
      ensures ClearOf(h, i, a)
    {
      assert a / BYTES_PER_FRAME == p;
      FrameIsSlotAligned(1, h.headers[i]);
      assert FreeListOk(h, i);
      assert forall b :: b in h.free[i] ==> IsSlot(h, i, b);
    }
  }

  lemma LiveNotInAnyList(h: Heap, ptr: nat)
    requires Inv(h) && ptr in h.live
    ensures ptr != 0 && forall j :: 0 <= j < CLASSES ==> ptr !in h.free[j] && ptr != FrameAddr(h.headers[j])
  {
    LiveFrameUsed(h, ptr);
    forall j | 0 <= j < CLASSES
      ensures ptr !in h.free[j] && ptr != FrameAddr(h.headers[j])
    {
      LiveNotInList(h, ptr, j);
    }
  }

  lemma LiveNotInList(h: Heap, ptr: nat, j: nat)
    requires Inv(h) && ptr in h.live && j < CLASSES
    ensures ptr !in h.free[j] && ptr != FrameAddr(h.headers[j])
  {
    if ptr in h.free[j] { FreeIsNotLive(h, j, ptr); }
    assert LiveOk(h, ptr);
    FrameIsSlotAligned(1, h.headers[j]);
  }

  /** The frames of the pages made so far, and their lists. */
  ghost predicate PagesMade(mem: Memory, used: set<nat>, headers: seq<nat>) {
    && |headers| <= CLASSES && NoDuplicates(headers)
    && (forall f :: f in headers ==> f !in used)
    && forall j {:trigger headers[j]} :: 0 <= j < |headers| ==>
         ListAt(mem, FrameAddr(headers[j]), FirstObjects(headers[j], j))
  }

  lemma OnePageMore(mem: Memory, mem': Memory, used: set<nat>, headers: seq<nat>, p: nat)
    requires PagesMade(mem, used, headers) && |headers| < CLASSES && p !in headers && p !in used
    requires forall a :: a in mem && !(FrameAddr(p) <= a < FrameAddr(p + 1)) ==> a in mem' && mem'[a] == mem[a]
    requires ListAt(mem', FrameAddr(p), FirstObjects(p, |headers|))
    ensures PagesMade(mem', used, headers + [p])
  {
    var headers' := headers + [p];
    forall j | 0 <= j < |headers'|
      ensures ListAt(mem', FrameAddr(headers'[j]), FirstObjects(headers'[j], j))
    {
      if j < |headers| {
        var f := headers[j];
        assert f in headers && ListAt(mem, FrameAddr(f), FirstObjects(f, j));
        FirstObjectsInPage(f, j);
        ChainKept(mem, mem', mem[FrameAddr(f)], FirstObjects(f, j));
      }
    }
    ConcatNoDuplicates(headers, [p]);
  }

  /** `PageHeader::new_at`: an empty list head, then every object after the header's slot. */
  method NewPage(lists: FreeLists, p: nat, i: nat)
    requires i < CLASSES && p >= 1
    modifies lists
    ensures ListAt(lists.mem, FrameAddr(p), FirstObjects(p, i))
    ensures forall a :: a in old(lists.mem) && !(FrameAddr(p) <= a < FrameAddr(p + 1)) ==>
              a in lists.mem && lists.mem[a] == old(lists.mem)[a]
  {
    var sz, page := ClassSize(i), p * BYTES_PER_FRAME;
    lists.mem := lists.mem[page := 0];
    var objsStart := page + (RESERVED_BYTES + sz - 1) / sz * sz;
    HeaderTakesOneSlot(i);
    ClassesDivideFrame(i);
    FrameIsSlotAligned(sz, p);
    FrameIsSlotAligned(sz, p + 1);
    SumOfMultiples(sz, page, sz);
    lists.Thread(page, sz, objsStart, page + BYTES_PER_FRAME, []);
    assert FirstObjects(p, i) + [] == FirstObjects(p, i);
  }

  /** The frame found first-fit is none of those in use, and marking it adds just it. */
  lemma FreshFrame(used: set<nat>, headers: seq<nat>, start: nat, end: nat, p: nat)
    requires FirstFit(used + (set f | f in headers), start, end, 1) == Some(p)
    ensures p !in used && p !in headers && start <= p < end
    ensures used + (set f | f in headers) + Frames(p, 1) == used + (set f | f in headers + [p])
  {
    assert RunFree(used + (set f | f in headers), p, 1);
    assert p !in used + (set f | f in headers);
    assert Frames(p, 1) == {p};
  }

  /** One page per class, or false when the frames run out. */
  method MakePages(frames: BitMapMemoryManager, lists: FreeLists) returns (headers: seq<nat>, ok: bool)
    requires frames.Valid() && frames.rangeStart >= 1 && frames.rangeEnd >= 1
    modifies frames.allocMap, lists
    ensures PagesMade(lists.mem, old(frames.Used()), headers)
    ensures frames.Used() == old(frames.Used()) + (set f | f in headers)
    ensures forall f :: f in headers ==> frames.rangeStart <= f < frames.rangeEnd
    ensures if ok then |headers| == CLASSES
            else FirstFit(frames.Used(), frames.rangeStart, frames.rangeEnd, 1).None?
  {
    headers := [];
    ghost var used := frames.Used();
    while |headers| < CLASSES
      invariant PagesMade(lists.mem, used, headers)
      invariant frames.Used() == used + (set f | f in headers)
      invariant forall f :: f in headers ==> frames.rangeStart <= f < frames.rangeEnd
      decreases CLASSES - |headers|
    {
      var p := frames.Allocate(1);
      if p.None? {
        return headers, false;
      }
      ghost var mem := lists.mem;
      NewPage(lists, p.value, |headers|);
      FreshFrame(used, headers, frames.rangeStart, frames.rangeEnd, p.value);
      OnePageMore(mem, lists.mem, used, headers, p.value);
      headers := headers + [p.value];
    }
    ok := true;
  }

  /** `ObjectAllocator::new`; None is the panic of a failed `unwrap`, and then no frame is left. */
  method New(frames: BitMapMemoryManager) returns (r: Option<Allocator>)
    requires frames.Valid() && frames.rangeStart >= 1
    modifies frames.allocMap
    ensures r.None? ==> frames.rangeEnd < 1 || FirstFit(frames.Used(), frames.rangeStart, frames.rangeEnd, 1).None?
    ensures r.Some? ==> fresh(r.value) && fresh(r.value.lists) && r.value.frames == frames && r.value.Valid()
    ensures r.Some? ==>
              var hs := r.value.heap.headers;
              |hs| == CLASSES && r.value.heap == Start(old(frames.Used()), frames.rangeStart, frames.rangeEnd, hs)
  {
    if frames.rangeEnd < 1 {
      return None;
    }
    ghost var used := frames.Used();
    var lists := new FreeLists();
    var headers, ok := MakePages(frames, lists);
    if !ok {
      return None;
    }
    StartInv(used, frames.rangeStart, frames.rangeEnd, headers);
    ghost var h := Start(used, frames.rangeStart, frames.rangeEnd, headers);
    var pages := seq(CLASSES, i requires 0 <= i < |headers| => headers[i] * BYTES_PER_FRAME);
    var a := new Allocator(frames, lists, pages, h);
    r := Some(a);
  }

  // ---------------------------------------------------------------- clients

  /** Some live block covers part of the `n` bytes at `x`. */
  ghost predicate Touched(h: Heap, x: nat, n: nat) {
    exists a :: a in h.live && !Apart((a, h.live[a].size), (x, n))
  }

  /**
    Clients that write anything they like into their own blocks cannot damage a free list: if the only cells
    that changed are ones whose header a live block reaches into, all six lists are as before.
   */
  lemma ClientWritesAreHarmless(mem: Memory, mem': Memory, h: Heap)
    requires Inv(h) && Represents(mem, h)
    requires forall x :: x in mem && !Touched(h, x, PAGE_HEADER_BYTES) ==> x in mem' && mem'[x] == mem[x]
    ensures Represents(mem', h)
  {
    forall i | 0 <= i < CLASSES
      ensures ListAt(mem', FrameAddr(h.headers[i]), h.free[i])
    {
      var hd := FrameAddr(h.headers[i]);
      assert ListAt(mem, hd, h.free[i]);
      PartUntouched(h, Header(i));
      forall x | x in h.free[i]
        ensures !Touched(h, x, PAGE_HEADER_BYTES)
      {
        PartUntouched(h, FreeObject(i, x));
      }
      ChainKept(mem, mem', mem[hd], h.free[i]);
    }
  }

  lemma PartUntouched(h: Heap, p: Part)
    requires Inv(h) && Present(h, p) && !p.Live?
    ensures !Touched(h, Extent(h, p).0, PAGE_HEADER_BYTES)
  {
    forall a | a in h.live
      ensures Apart((a, h.live[a].size), (Extent(h, p).0, PAGE_HEADER_BYTES))
    {
      PartsNeverOverlap(h, Live(a), p);
    }
  }
}
