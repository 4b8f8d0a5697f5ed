/**
  The physical frame allocator: one bit per 4 KiB frame, packed eight to a byte, built
  from the firmware's memory map and searched first-fit.
 */
module FrameBitmap {
  import opened Common

  const BYTES_PER_FRAME: nat := 4096
  const FRAME_COUNT: nat := 128 * 1024 * 1024 * 1024 / BYTES_PER_FRAME

  // ---------------------------------------------------------------- bits

  /** Bit `i` of a byte, spelled out; `MaskIsShift` says that this is the shifted one of the source. */
  function Mask(i: nat): bv8
    requires i < 8
  {
    if i == 0 then 1 else if i == 1 then 2 else if i == 2 then 4 else if i == 3 then 8
    else if i == 4 then 16 else if i == 5 then 32 else if i == 6 then 64 else 128
  }

  lemma MaskIsShift(i: nat)
    requires i < 8
    ensures Mask(i) == 1 << i
  {
  }

  lemma MasksApart(i: nat, j: nat)
    requires i < 8 && j < 8
    ensures Mask(i) & Mask(j) == if i == j then Mask(i) else 0
    ensures Mask(i) != 0
  {
  }

  lemma OtherBitsKept(b: bv8, p: bv8, q: bv8)
    requires p & q == 0
    ensures (b | p) & q == b & q
    ensures (b & !p) & q == b & q
  {
  }

  /** Setting or clearing bit i of a byte, seen through bit j. */
  lemma ByteUpdate(b: bv8, i: nat, j: nat)
    requires i < 8 && j < 8
    ensures (b | Mask(i)) & Mask(j) != 0 <==> i == j || b & Mask(j) != 0
    ensures (b & !Mask(i)) & Mask(j) != 0 <==> i != j && b & Mask(j) != 0
  {
    MasksApart(i, j);
    assert (b | Mask(i)) & Mask(i) == Mask(i) && (b & !Mask(i)) & Mask(i) == 0;
    if i != j {
      OtherBitsKept(b, Mask(i), Mask(j));
    }
  }

  predicate Bit(bytes: seq<bv8>, frame: nat)
    requires frame < 8 * |bytes|
  {
    bytes[frame / 8] & Mask(frame % 8) != 0
  }

  /** The frames whose bit is set. */
  ghost function UsedIn(bytes: seq<bv8>): set<nat> {
    set f | 0 <= f < 8 * |bytes| && Bit(bytes, f)
  }

  /** `n` frames from `from` on. */
  ghost function Frames(from: nat, n: nat): (s: set<nat>)
    ensures forall f :: f in s <==> from <= f < from + n
  {
    if n == 0 then {} else Frames(from, n - 1) + {from + n - 1}
  }

  /** One byte replaced by `b`, where `b` differs from it in one bit. */
  lemma UsedAfterByte(bytes: seq<bv8>, frame: nat, inUse: bool, b: bv8)
    requires frame < 8 * |bytes|
    requires b == if inUse then bytes[frame / 8] | Mask(frame % 8) else bytes[frame / 8] & !Mask(frame % 8)
    ensures UsedIn(bytes[frame / 8 := b]) == if inUse then UsedIn(bytes) + {frame} else UsedIn(bytes) - {frame}
  {
    var bytes' := bytes[frame / 8 := b];
    forall f | 0 <= f < 8 * |bytes|
      ensures Bit(bytes', f) == if f == frame then inUse else Bit(bytes, f)
    {
      if f / 8 == frame / 8 {
        ByteUpdate(bytes[frame / 8], frame % 8, f % 8);
      }
    }
  }

  // ---------------------------------------------------------------- first fit on a set of frames

  ghost predicate RunFree(used: set<nat>, start: nat, n: nat) {
    forall f :: start <= f < start + n ==> f !in used
  }

  /** Tries every start from `start` on, one by one.  A run that ends at `end` itself is not tried. */
  ghost function FirstFit(used: set<nat>, start: nat, end: nat, n: nat): (r: Option<nat>)
    ensures r.Some? ==> start <= r.value < end - n && RunFree(used, r.value, n)
    ensures forall s :: start <= s < end - n && RunFree(used, s, n) ==> r.Some? && r.value <= s
    decreases end - start
  {
    if start >= end - n then None
    else if RunFree(used, start, n) then Some(start)
    else FirstFit(used, start + 1, end, n)
  }

  /** A used frame at start + k rules out the k + 1 starts up to it. */
  lemma {:induction false} SkipIsSafe(used: set<nat>, start: nat, end: nat, n: nat, k: nat)
    requires k < n && start + k in used
    ensures FirstFit(used, start, end, n) == FirstFit(used, start + k + 1, end, n)
    decreases k
  {
    if start < end - n {
      assert !RunFree(used, start, n);
      if k > 0 { SkipIsSafe(used, start + 1, end, n, k - 1); }
    }
  }

  /** The last run of the range is never handed out: with only that run free, the search fails. */
  lemma LastRunIsSkipped(used: set<nat>, start: nat, end: nat, n: nat)
    requires n <= end && RunFree(used, end - n, n)
    requires forall s :: start <= s < end - n ==> !RunFree(used, s, n)
    ensures FirstFit(used, start, end, n).None?
  {
  }

  // ---------------------------------------------------------------- the memory map

  datatype MemoryType =
    | EfiReservedMemoryType | EfiLoaderCode | EfiLoaderData | EfiBootServicesCode | EfiBootServicesData
    | EfiRuntimeServicesCode | EfiRuntimeServicesData | EfiConventionalMemory | EfiUnusableMemory
    | EfiACPIReclaimMemory | EfiACPIMemoryNVS | EfiMemoryMappedIO | EfiMemoryMappedIOPortSpace
    | EfiPalCode | EfiPersistentMemory | EfiMaxMemoryType

  datatype Descriptor = Descriptor(kind: MemoryType, physicalStart: nat, numPages: nat, attribute: nat) {
    predicate IsAvailable() {
      kind.EfiBootServicesCode? || kind.EfiBootServicesData? || kind.EfiConventionalMemory?
    }

    function End(): nat {
      physicalStart + numPages * BYTES_PER_FRAME
    }

    ghost predicate Covers(frame: nat) {
      physicalStart / BYTES_PER_FRAME <= frame < physicalStart / BYTES_PER_FRAME + numPages
    }
  }

  /** The UEFI specification leaves these to the operating system once the boot services are exited. */
  const USABLE_AFTER_BOOT: set<MemoryType> := {EfiBootServicesCode, EfiBootServicesData, EfiConventionalMemory}

  /** The map ends at its first zero-filled entry. */
  ghost function Entries(map_: seq<Descriptor>): (es: seq<Descriptor>) {
    if map_ == [] || map_[0].attribute == 0 then [] else [map_[0]] + Entries(map_[1..])
  }

  lemma {:induction false} EntriesArePrefix(map_: seq<Descriptor>)
    ensures var es := Entries(map_);
            && |es| <= |map_| && es == map_[..|es|]
            && (forall i :: 0 <= i < |es| ==> map_[i].attribute != 0)
            && (|es| < |map_| ==> map_[|es|].attribute == 0)
  {
    if map_ != [] && map_[0].attribute != 0 {
      EntriesArePrefix(map_[1..]);
    }
  }

  /** Going through the map one by one, `k` entries so far, one finds the next entry or the end of them. */
  lemma EntryAt(map_: seq<Descriptor>, k: nat)
    requires k <= |Entries(map_)|
    ensures if k < |map_| && map_[k].attribute != 0 then k < |Entries(map_)| && Entries(map_)[k] == map_[k]
            else k == |Entries(map_)|
  {
    EntriesArePrefix(map_);
  }

  /** One entry: mark the gap before it, then either step over it or mark it too. */
  ghost function MarkOne(used: set<nat>, end: nat, d: Descriptor): (r: (set<nat>, nat)) {
    var gap := if end < d.physicalStart
               then Frames(end / BYTES_PER_FRAME, (d.physicalStart - end) / BYTES_PER_FRAME) else {};
    if d.IsAvailable() then (used + gap, d.End())
    else (used + gap + Frames(d.physicalStart / BYTES_PER_FRAME, d.numPages), end)
  }

  /** The frames marked used, and the end of the last available entry, after these entries. */
  ghost function Marks(es: seq<Descriptor>): (r: (set<nat>, nat)) {
    if es == [] then ({}, 0)
    else var (used, end) := Marks(es[..|es| - 1]); MarkOne(used, end, es[|es| - 1])
  }

  ghost predicate Fits(es: seq<Descriptor>) {
    forall i :: 0 <= i < |es| ==> es[i].End() <= FRAME_COUNT * BYTES_PER_FRAME
  }

  // The UEFI specification promises the next three of every memory map, and no order.

  ghost predicate PageAligned(es: seq<Descriptor>) {
    forall i :: 0 <= i < |es| ==> es[i].physicalStart % BYTES_PER_FRAME == 0
  }

  ghost predicate Disjoint(es: seq<Descriptor>) {
    forall i, j :: 0 <= i < j < |es| ==> es[i].End() <= es[j].physicalStart || es[j].End() <= es[i].physicalStart
  }

  ghost predicate NoneEmpty(es: seq<Descriptor>) {
    forall i :: 0 <= i < |es| ==> es[i].numPages > 0
  }

  /** No entry that comes before an available one lies above it.  Of the others any order will do. */
  ghost predicate AvailableInOrder(es: seq<Descriptor>) {
    forall i, j :: 0 <= i < j < |es| && es[j].IsAvailable() ==> es[i].End() <= es[j].physicalStart
  }

  ghost predicate Available(es: seq<Descriptor>, frame: nat) {
    exists i :: 0 <= i < |es| && es[i].IsAvailable() && es[i].Covers(frame)
  }

  /** The managed frames left unmarked are the available ones: nothing is missed and nothing else is offered. */
  ghost predicate Exact(es: seq<Descriptor>) {
    forall f: nat :: (f < Marks(es).1 / BYTES_PER_FRAME && f !in Marks(es).0) <==> Available(es, f)
  }

  lemma AvailableSnoc(es: seq<Descriptor>, d: Descriptor, f: nat)
    ensures Available(es + [d], f) <==> Available(es, f) || (d.IsAvailable() && d.Covers(f))
  {
    var es' := es + [d];
    if Available(es, f) {
      var i :| 0 <= i < |es| && es[i].IsAvailable() && es[i].Covers(f);
      assert es'[i] == es[i];
    }
    if d.IsAvailable() && d.Covers(f) {
      assert es'[|es|] == d;
    }
  }

  lemma MarksNext(es: seq<Descriptor>, k: nat)
    requires k < |es|
    ensures Marks(es[..k + 1]) == MarkOne(Marks(es[..k]).0, Marks(es[..k]).1, es[k])
  {
    assert es[..k + 1][..k] == es[..k];
  }

  /** The range ends where the last available entry does. */
  lemma {:induction false} EndIsOfAvailable(es: seq<Descriptor>)
    ensures Marks(es).1 == 0 || exists k :: 0 <= k < |es| && es[k].IsAvailable() && es[k].End() == Marks(es).1
  {
    if es != [] {
      var es0, d := es[..|es| - 1], es[|es| - 1];
      EndIsOfAvailable(es0);
      if d.IsAvailable() {
        assert es[|es| - 1].End() == Marks(es).1;
      } else if Marks(es0).1 != 0 {
        var k :| 0 <= k < |es0| && es0[k].IsAvailable() && es0[k].End() == Marks(es0).1;
        assert es[k].End() == Marks(es).1;
      }
    }
  }

  lemma EndIsAligned(es: seq<Descriptor>)
    requires PageAligned(es)
    ensures Marks(es).1 % BYTES_PER_FRAME == 0
  {
    EndIsOfAvailable(es);
  }

  lemma UnmarkedStep(end: nat, used: set<nat>, d: Descriptor, f: nat)
    requires end % BYTES_PER_FRAME == 0 && d.physicalStart % BYTES_PER_FRAME == 0
    requires f < MarkOne(used, end, d).1 / BYTES_PER_FRAME && f !in MarkOne(used, end, d).0
    ensures f !in used && (f < end / BYTES_PER_FRAME || (d.IsAvailable() && d.Covers(f)))
  {
  }

  /** Whatever the order and the overlaps of a page-aligned map, no frame is offered that is not available. */
  lemma {:induction false} UnmarkedIsAvailable(es: seq<Descriptor>, f: nat)
    requires PageAligned(es) && f < Marks(es).1 / BYTES_PER_FRAME && f !in Marks(es).0
    ensures Available(es, f)
    decreases |es|
  {
    if es != [] {
      var es0, d := es[..|es| - 1], es[|es| - 1];
      assert es == es0 + [d];
      EndIsAligned(es0);
      AvailableSnoc(es0, d, f);
      UnmarkedStep(Marks(es0).1, Marks(es0).0, d, f);
      if f < Marks(es0).1 / BYTES_PER_FRAME {
        UnmarkedIsAvailable(es0, f);
      }
    }
  }

  /** Entries that end at or below `top` mark nothing from there on. */
  lemma {:induction false} MarksBelow(es: seq<Descriptor>, top: nat, f: nat)
    requires PageAligned(es) && top % BYTES_PER_FRAME == 0
    requires forall i :: 0 <= i < |es| ==> es[i].End() <= top
    ensures Marks(es).1 <= top && (f in Marks(es).0 ==> f < top / BYTES_PER_FRAME)
    decreases |es|
  {
    if es != [] {
      var es0, d := es[..|es| - 1], es[|es| - 1];
      assert forall i :: 0 <= i < |es0| ==> es0[i] == es[i];
      MarksBelow(es0, top, f);
      EndIsAligned(es0);
      assert d == es[|es| - 1] && d.End() <= top;
    }
  }

  /** Disjoint entries cover no frame together. */
  lemma NotBothCover(es: seq<Descriptor>, i: nat, j: nat, f: nat)
    requires PageAligned(es) && Disjoint(es) && i < j < |es|
    ensures !(es[i].Covers(f) && es[j].Covers(f))
  {
    assert es[i].End() <= es[j].physicalStart || es[j].End() <= es[i].physicalStart;
  }

  /** An available entry above everything before it marks no available frame, and makes its own reachable. */
  lemma AvailableAbove(es: seq<Descriptor>, d: Descriptor, f: nat)
    requires PageAligned(es) && d.physicalStart % BYTES_PER_FRAME == 0 && d.IsAvailable()
    requires forall i :: 0 <= i < |es| ==> es[i].End() <= d.physicalStart
    requires d.Covers(f) || (f < Marks(es).1 / BYTES_PER_FRAME && f !in Marks(es).0)
    ensures var (used, end) := MarkOne(Marks(es).0, Marks(es).1, d); f < end / BYTES_PER_FRAME && f !in used
  {
    EndIsAligned(es);
    MarksBelow(es, d.physicalStart, f);
  }

  /** An unavailable entry marks nothing below the end of the range but its own frames. */
  lemma UnavailableStep(end: nat, used: set<nat>, d: Descriptor, f: nat)
    requires end % BYTES_PER_FRAME == 0 && !d.IsAvailable() && !d.Covers(f)
    requires f < end / BYTES_PER_FRAME && f !in used
    ensures var (used', end') := MarkOne(used, end, d); f < end' / BYTES_PER_FRAME && f !in used'
  {
  }

  /** The frame of an earlier available entry is not one of the last entry. */
  lemma LastCoversNot(es: seq<Descriptor>, d: Descriptor, f: nat)
    requires PageAligned(es + [d]) && Disjoint(es + [d]) && Available(es, f)
    ensures !d.Covers(f)
  {
    var i :| 0 <= i < |es| && es[i].IsAvailable() && es[i].Covers(f);
    assert (es + [d])[i] == es[i];
    NotBothCover(es + [d], i, |es|, f);
  }

  /** An available frame stays unmarked when the next entry is in order. */
  lemma AvailableStep(es: seq<Descriptor>, d: Descriptor, f: nat)
    requires PageAligned(es + [d]) && Disjoint(es + [d]) && AvailableInOrder(es + [d]) && Available(es + [d], f)
    requires Available(es, f) ==> f < Marks(es).1 / BYTES_PER_FRAME && f !in Marks(es).0
    ensures var (used, end) := MarkOne(Marks(es).0, Marks(es).1, d); f < end / BYTES_PER_FRAME && f !in used
  {
    var es' := es + [d];
    assert forall i :: 0 <= i < |es| ==> es'[i] == es[i];
    assert es'[|es|] == d;
    AvailableSnoc(es, d, f);
    if d.IsAvailable() {
      AvailableAbove(es, d, f);
    } else {
      EndIsAligned(es);
      LastCoversNot(es, d, f);
      UnavailableStep(Marks(es).1, Marks(es).0, d, f);
    }
  }

  lemma {:induction false} AvailableIsUnmarked(es: seq<Descriptor>, f: nat)
    requires PageAligned(es) && Disjoint(es) && AvailableInOrder(es) && Available(es, f)
    ensures f < Marks(es).1 / BYTES_PER_FRAME && f !in Marks(es).0
    decreases |es|
  {
    var es0, d := es[..|es| - 1], es[|es| - 1];
    assert es == es0 + [d];
    if Available(es0, f) {
      AvailableIsUnmarked(es0, f);
    }
    AvailableStep(es0, d, f);
  }

  lemma {:induction false} MarksGrow(es: seq<Descriptor>, n: nat, f: nat)
    requires n <= |es| && f in Marks(es[..n]).0
    ensures f in Marks(es).0
    decreases |es|
  {
    if n == |es| {
      assert es[..n] == es;
    } else {
      assert es[..|es| - 1][..n] == es[..n];
      MarksGrow(es[..|es| - 1], n, f);
    }
  }

  /** Memory of every other kind is marked, whatever else the map says of it. */
  lemma OthersAreMarked(es: seq<Descriptor>, k: nat, f: nat)
    requires k < |es| && es[k].kind !in USABLE_AFTER_BOOT && es[k].Covers(f)
    ensures f in Marks(es).0
  {
    MarksNext(es, k);
    MarksGrow(es, k + 1, f);
  }

  /** Memory is available if and only if an entry of one of those kinds covers it. */
  lemma AvailableKinds(es: seq<Descriptor>, f: nat)
    ensures Available(es, f) <==> exists k :: 0 <= k < |es| && es[k].kind in USABLE_AFTER_BOOT && es[k].Covers(f)
  {
    assert forall d: Descriptor :: d.IsAvailable() <==> d.kind in USABLE_AFTER_BOOT;
  }

  /** What lies between the end so far and the next entry is marked. */
  lemma GapIsMarked(end: nat, used: set<nat>, d: Descriptor, e: Descriptor, f: nat)
    requires end % BYTES_PER_FRAME == 0 && d.physicalStart % BYTES_PER_FRAME == 0
    requires e.physicalStart % BYTES_PER_FRAME == 0 && e.Covers(f)
    requires end <= e.physicalStart && e.End() <= d.physicalStart
    ensures f in MarkOne(used, end, d).0
  {
    assert f in Frames(end / BYTES_PER_FRAME, (d.physicalStart - end) / BYTES_PER_FRAME);
  }

  /** An entry further up was stepped over before. */
  lemma EndIsAbove(es: seq<Descriptor>, i: nat, j: nat) returns (k: nat)
    requires Disjoint(es) && i < j < |es| && Marks(es[..i]).1 > es[j].physicalStart
    ensures k < i && es[j].End() <= es[k].physicalStart
  {
    EndIsOfAvailable(es[..i]);
    k :| 0 <= k < i && es[..i][k].IsAvailable() && es[..i][k].End() == Marks(es[..i]).1;
    assert es[k] == es[..i][k];
  }

  /** An available entry that comes after one above it is lost whole: every frame of it is marked. */
  lemma {:induction false} OutOfOrderIsLost(es: seq<Descriptor>, i: nat, j: nat, f: nat)
    requires PageAligned(es) && Disjoint(es) && i < j < |es|
    requires es[j].IsAvailable() && es[j].Covers(f) && es[j].End() <= es[i].physicalStart
    ensures f in Marks(es).0
    decreases i
  {
    if Marks(es[..i]).1 <= es[j].physicalStart {
      EndIsAligned(es[..i]);
      GapIsMarked(Marks(es[..i]).1, Marks(es[..i]).0, es[i], es[j], f);
      MarksNext(es, i);
      MarksGrow(es, i + 1, f);
    } else {
      var k := EndIsAbove(es, i, j);
      OutOfOrderIsLost(es, k, j, f);
    }
  }

  /**
    The exact condition.  For every map of disjoint, non-empty, page-aligned entries the marking is exact if
    and only if no entry lies above an available one that comes later.
   */
  lemma ExactIffInOrder(es: seq<Descriptor>)
    requires PageAligned(es) && Disjoint(es) && NoneEmpty(es)
    ensures Exact(es) <==> AvailableInOrder(es)
  {
    if AvailableInOrder(es) {
      forall f: nat
        ensures (f < Marks(es).1 / BYTES_PER_FRAME && f !in Marks(es).0) <==> Available(es, f)
      {
        FreeIffAvailable(es, f);
      }
    } else {
      var i, j :| 0 <= i < j < |es| && es[j].IsAvailable() && es[i].End() > es[j].physicalStart;
      var f := es[j].physicalStart / BYTES_PER_FRAME;
      assert es[j].Covers(f);
      OutOfOrderIsLost(es, i, j, f);
    }
  }

  /**
    With the available entries in order: below the end of the last one a frame is unmarked exactly when an
    available entry covers it, and no available frame lies beyond.
   */
  lemma FreeIffAvailable(es: seq<Descriptor>, f: nat)
    requires PageAligned(es) && Disjoint(es) && AvailableInOrder(es)
    ensures f < Marks(es).1 / BYTES_PER_FRAME ==> (f !in Marks(es).0 <==> Available(es, f))
    ensures f >= Marks(es).1 / BYTES_PER_FRAME ==> !Available(es, f)
  {
    if f < Marks(es).1 / BYTES_PER_FRAME && f !in Marks(es).0 {
      UnmarkedIsAvailable(es, f);
    }
    if Available(es, f) {
      AvailableIsUnmarked(es, f);
    }
  }

  // ---------------------------------------------------------------- the manager

  class BitMapMemoryManager {
    var allocMap: array<bv8>
    var rangeStart: nat
    var rangeEnd: nat

    ghost predicate Valid()
      reads this
    {
      8 * allocMap.Length == FRAME_COUNT && rangeEnd <= FRAME_COUNT
    }

    ghost function Used(): set<nat>
      reads this, allocMap
    {
      UsedIn(allocMap[..])
    }

    method SetBit(frame: nat, inUse: bool)
      requires frame < 8 * allocMap.Length
      modifies allocMap
      ensures Used() == if inUse then old(Used()) + {frame} else old(Used()) - {frame}
    {
      var lineIndex, bitIndex := frame / 8, frame % 8;
      var line := allocMap[lineIndex];
      line := if inUse then line | Mask(bitIndex) else line & !Mask(bitIndex);
      UsedAfterByte(allocMap[..], frame, inUse, line);
      allocMap[lineIndex] := line;
      assert allocMap[..] == old(allocMap[..])[lineIndex := line];
    }

    method GetBit(frame: nat) returns (b: bool)
      requires frame < 8 * allocMap.Length
      ensures b <==> frame in Used()
    {
      b := allocMap[frame / 8] & Mask(frame % 8) != 0;
    }

    method MarkAllocated(from: nat, n: nat)
      requires from + n <= 8 * allocMap.Length
      modifies allocMap
      ensures Used() == old(Used()) + Frames(from, n)
    {
      for frame := from to from + n
        invariant Used() == old(Used()) + Frames(from, frame - from)
      {
        SetBit(frame, true);
      }
    }

    method Free(start: nat, n: nat)
      requires start + n <= 8 * allocMap.Length
      modifies allocMap
      ensures Used() == old(Used()) - Frames(start, n)
    {
      for frame := start to start + n
        invariant Used() == old(Used()) - Frames(start, frame - start)
      {
        SetBit(frame, false);
      }
    }

    /** The inner loop of `Allocate`: the length of the free run at `start`, up to `n`. */
    method FreeRun(start: nat, n: nat) returns (nfree: nat)
      requires Valid() && start + n <= rangeEnd
      ensures nfree <= n && RunFree(Used(), start, nfree)
      ensures nfree < n ==> start + nfree in Used()
    {
      nfree := 0;
      while nfree < n && start + nfree < rangeEnd
        invariant nfree <= n && RunFree(Used(), start, nfree)
      {
        var inUse := GetBit(start + nfree);
        if inUse {
          return;
        }
        nfree := nfree + 1;
      }
    }

    method Allocate(n: nat) returns (r: Option<nat>)
      requires Valid() && n <= rangeEnd
      modifies allocMap
      ensures r == FirstFit(old(Used()), rangeStart, rangeEnd, n)
      ensures Used() == if r.Some? then old(Used()) + Frames(r.value, n) else old(Used())
    {
      var start := rangeStart;
      ghost var used := Used();
      while start < rangeEnd - n
        invariant Used() == used
        invariant FirstFit(used, start, rangeEnd, n) == FirstFit(used, rangeStart, rangeEnd, n)
        decreases rangeEnd - start
      {
        var nfree := FreeRun(start, n);
        if nfree == n {
          MarkAllocated(start, n);
          return Some(start);
        }
        SkipIsSafe(used, start, rangeEnd, n, nfree);
        start := start + nfree + 1;
      }
      r := None;
    }

    method Clear()
      modifies allocMap
      ensures Used() == {}
    {
      forall i | 0 <= i < allocMap.Length {
        allocMap[i] := 0;
      }
      forall f | 0 <= f < 8 * allocMap.Length
        ensures !Bit(allocMap[..], f)
      {
        assert (0 as bv8) & Mask(f % 8) == 0;
      }
    }

    method MarkEntry(desc: Descriptor, availableEnd: nat) returns (end: nat)
      requires 8 * allocMap.Length == FRAME_COUNT
      requires desc.End() <= FRAME_COUNT * BYTES_PER_FRAME
      modifies allocMap
      ensures (Used(), end) == MarkOne(old(Used()), availableEnd, desc)
    {
      if availableEnd < desc.physicalStart {
        MarkAllocated(availableEnd / BYTES_PER_FRAME, (desc.physicalStart - availableEnd) / BYTES_PER_FRAME);
      }
      if desc.IsAvailable() {
        end := desc.End();
      } else {
        MarkAllocated(desc.physicalStart / BYTES_PER_FRAME, desc.numPages);
        end := availableEnd;
      }
      assert Used() == MarkOne(old(Used()), availableEnd, desc).0;
    }

    /** The manager is overlaid on uninitialised memory, whatever its bytes were. */
    method NewAt(map_: seq<Descriptor>)
      requires 8 * allocMap.Length == FRAME_COUNT && Fits(Entries(map_))
      modifies this`rangeStart, this`rangeEnd, allocMap
      ensures Valid()
      ensures Used() == Marks(Entries(map_)).0
      ensures rangeStart == 1 && rangeEnd == Marks(Entries(map_)).1 / BYTES_PER_FRAME
    {
      Clear();
      var availableEnd := 0;
      var k := 0;
      ghost var es := Entries(map_);
      while k < |map_| && map_[k].attribute != 0
        invariant k <= |es|
        invariant (Used(), availableEnd) == Marks(es[..k])
        invariant availableEnd <= FRAME_COUNT * BYTES_PER_FRAME
      {
        EntryAt(map_, k);
        MarksNext(es, k);
        availableEnd := MarkEntry(map_[k], availableEnd);
        k := k + 1;
      }
      EntryAt(map_, k);
      assert es[..k] == es;
      rangeStart, rangeEnd := 1, availableEnd / BYTES_PER_FRAME;
    }
  }

  /** A map that is out of order: of two available entries the first is beyond the range and the second is marked. */
  lemma UnsortedMapLosesFrames()
    ensures var es := [Descriptor(EfiConventionalMemory, 8192, 1, 15), Descriptor(EfiConventionalMemory, 0, 1, 15)];
            && Available(es, 0) && 0 in Marks(es).0 && Available(es, 2) && 2 >= Marks(es).1 / BYTES_PER_FRAME
            && PageAligned(es) && Disjoint(es) && NoneEmpty(es) && !Exact(es)
  {
    var es := [Descriptor(EfiConventionalMemory, 8192, 1, 15), Descriptor(EfiConventionalMemory, 0, 1, 15)];
    assert es[1].Covers(0) && es[0].Covers(2);
    assert es[..1] == [es[0]] && es[..1][..0] == [];
    assert Marks(es[..0]) == ({}, 0);
    assert Marks(es[..1]) == MarkOne({}, 0, es[0]);
  }

  /** An unsorted map on which the marking is exact: what is out of order is not available. */
  lemma UnsortedMapMayBeExact()
    ensures var es := [Descriptor(EfiConventionalMemory, 8192, 1, 15), Descriptor(EfiReservedMemoryType, 0, 1, 15)];
            es[0].physicalStart > es[1].physicalStart && Exact(es)
  {
    ExactIffInOrder([Descriptor(EfiConventionalMemory, 8192, 1, 15), Descriptor(EfiReservedMemoryType, 0, 1, 15)]);
  }
}
