/**
  The producer half of an xHCI ring (command and transfer rings) and the controller
  that consumes it.

  The driver and the controller share an array of TRBs and never exchange counters:
  ownership of a slot is told by its cycle bit alone, and the last slot of the array
  is a Link TRB that sends the controller back to slot 0 and toggles the cycle bit it
  expects (sections 4.9.2 and 4.9.3 of the xHCI specification).
 */
module TrbRing {
  import opened Common

  /** `Blank` is the zero-filled TRB of a fresh ring; `Work` is anything the driver pushes. */
  datatype Body<+W> = Blank | Link | Work(work: W)

  datatype Trb<+W> = Trb(body: Body<W>, cycle: bool)

  datatype Ring<+W> = Ring(data: seq<Trb<W>>, cycleState: bool, enque: nat, deque: nat)

  const TRB_BYTES: nat := 16

  // ---------------------------------------------------------------- operations on values

  ghost predicate WellFormed<W>(r: Ring<W>) {
    && |r.data| >= 2
    && r.enque <= |r.data| - 2
    && r.deque <= |r.data| - 2
  }

  function NextPtr(size: nat, ptr: nat): nat
    requires size >= 2
  {
    if ptr + 1 == size - 1 then 0 else ptr + 1
  }

  function FreshRing<W>(size: nat): (r: Ring<W>)
    requires size >= 2
  {
    Ring(seq(size - 1, _ => Trb(Blank, false)) + [Trb(Link, false)], true, 0, 0)
  }

  /** Stores `t` at the enqueue slot and moves on, waking the link TRB when the lap ends. */
  function Stored<W>(r: Ring<W>, w: W): (r': Ring<W>)
    requires WellFormed(r)
  {
    var data := r.data[r.enque := Trb(Work(w), r.cycleState)];
    var last := |data| - 1;
    if r.enque + 1 == last
    then Ring(data[last := data[last].(cycle := r.cycleState)], !r.cycleState, 0, r.deque)
    else Ring(data, r.cycleState, r.enque + 1, r.deque)
  }

  /** The first write of a push: the TRB itself. */
  function Written<W>(r: Ring<W>, w: W): Ring<W>
    requires WellFormed(r)
  {
    r.(data := r.data[r.enque := Trb(Work(w), r.cycleState)])
  }

  /** The rest of a push: the link TRB is handed over when the lap ends, and the index moves on. */
  function Advanced<W>(r: Ring<W>): Ring<W>
    requires WellFormed(r)
  {
    var last := |r.data| - 1;
    if r.enque + 1 == last
    then Ring(r.data[last := r.data[last].(cycle := r.cycleState)], !r.cycleState, 0, r.deque)
    else r.(enque := r.enque + 1)
  }

  lemma StoredIsBothWrites<W>(r: Ring<W>, w: W)
    requires WellFormed(r)
    ensures WellFormed(Written(r, w)) && Advanced(Written(r, w)) == Stored(r, w)
  {
  }

  predicate IsFull<W>(r: Ring<W>)
    requires |r.data| >= 2
  {
    NextPtr(|r.data|, r.enque) == r.deque
  }

  /** The number of pushes a ring accepts before the driver moves its dequeue index. */
  ghost function Room<W>(r: Ring<W>): (n: nat)
    requires WellFormed(r)
    ensures n <= |r.data| - 2
    ensures n == 0 <==> IsFull(r)
  {
    if r.deque > r.enque then r.deque - r.enque - 1 else r.deque + |r.data| - 2 - r.enque
  }

  lemma StoredTakesRoom<W>(r: Ring<W>, w: W)
    requires WellFormed(r) && !IsFull(r)
    ensures WellFormed(Stored(r, w)) && Room(Stored(r, w)) == Room(r) - 1
  {
  }

  // ---------------------------------------------------------------- the shared-memory class

  class ProducerRing<W> {
    var data: array<Trb<W>>
    var cycleState: bool
    var enque: nat
    var deque: nat
    // the physical address of the first TRB
    const base: nat

    ghost predicate Valid()
      reads this, data
    {
      WellFormed(State())
    }

    ghost function State(): Ring<W>
      reads this, data
    {
      Ring(data[..], cycleState, enque, deque)
    }

    constructor (size: nat, base: nat)
      requires size >= 2
      ensures Valid() && fresh(data)
      ensures this.base == base && data.Length == size
      ensures State() == FreshRing(size)
    {
      var d := new Trb<W>[size](_ => Trb(Blank, false));
      d[size - 1] := Trb(Link, false);
      data := d;
      cycleState := true;
      enque, deque := 0, 0;
      this.base := base;
    }

    method AdvanceEnque()
      requires Valid()
      modifies this`enque, this`cycleState, data
      ensures State() == Advanced(old(State()))
    {
      enque := enque + 1;
      if enque == data.Length - 1 {
        data[enque] := data[enque].(cycle := cycleState);
        enque := 0;
        cycleState := !cycleState;
      }
    }

    /** The address of the stored TRB, or None for `RingIsFull`. */
    method Push(w: W) returns (ptr: Option<nat>)
      requires Valid()
      modifies this`enque, this`cycleState, data
      ensures Valid()
      ensures ptr.None? <==> old(IsFull(State()))
      ensures ptr.None? ==> State() == old(State())
      ensures ptr.Some? ==> State() == Stored(old(State()), w) && ptr.value == base + TRB_BYTES * old(enque)
    {
      if NextPtr(data.Length, enque) == deque {
        return None;
      }
      StoredIsBothWrites(State(), w);
      data[enque] := Trb(Work(w), cycleState);
      ptr := Some(base + TRB_BYTES * enque);
      AdvanceEnque();
    }

    /** `ptr` is the address of a TRB the controller has finished with. */
    method SetDequePtr(ptr: nat)
      requires Valid()
      requires base <= ptr && (ptr - base) / TRB_BYTES <= data.Length - 2
      modifies this`deque
      ensures Valid()
      ensures State() == old(State()).(deque := NextPtr(data.Length, (ptr - base) / TRB_BYTES))
    {
      var index := (ptr - base) / TRB_BYTES;
      deque := NextPtr(data.Length, index);
    }
  }

  // ---------------------------------------------------------------- positions of an endless tape

  /** The slot that holds the n-th TRB of the tape when m slots are reused for ever. */
  ghost function Slot(m: nat, n: nat): (s: nat)
    requires m >= 1
    ensures s < m
  {
    if n == 0 then 0 else if Slot(m, n - 1) + 1 == m then 0 else Slot(m, n - 1) + 1
  }

  /** The cycle bit of the n-th TRB of the tape. */
  ghost function Phase(m: nat, n: nat): bool
    requires m >= 1
  {
    if n == 0 then true else if Slot(m, n - 1) + 1 == m then !Phase(m, n - 1) else Phase(m, n - 1)
  }

  /** Within one lap the tape advances without meeting itself, and after it the bit flips. */
  lemma {:induction false} SlotAhead(m: nat, n: nat, d: nat)
    requires m >= 1 && d <= m
    ensures Slot(m, n + d) == if Slot(m, n) + d < m then Slot(m, n) + d else Slot(m, n) + d - m
    ensures Phase(m, n + d) == (Phase(m, n) == (Slot(m, n) + d < m))
  {
    if d > 0 {
      SlotAhead(m, n, d - 1);
    }
  }

  lemma SlotsDistinct(m: nat, i: nat, j: nat)
    requires m >= 1 && i < j < i + m
    ensures Slot(m, i) != Slot(m, j)
  {
    SlotAhead(m, i, j - i);
  }

  // ---------------------------------------------------------------- driver and controller together

  /**
    `index` and `expects` are the controller's dequeue pointer and consumer cycle state.
    The remaining fields are a record of the run: the work pushed, the bodies and
    addresses the controller fetched, and how many fetches the driver has acknowledged.
   */
  datatype System<+W> = System(
    ring: Ring<W>,
    index: nat,
    expects: bool,
    pushed: seq<W>,
    fetched: seq<Body<W>>,
    fetchedAt: seq<nat>,
    acked: nat)

  datatype Step<+W> = Push(work: W) | Fetch | Ack(event: nat)

  ghost function Start<W>(size: nat): System<W>
    requires size >= 2
  {
    System(FreshRing(size), 0, true, [], [], [], 0)
  }

  /** One look of the controller at the slot its dequeue pointer names. */
  ghost function AfterFetch<W>(s: System<W>): System<W>
    requires s.index < |s.ring.data|
  {
    var t := s.ring.data[s.index];
    if t.cycle != s.expects then s
    else if t.body.Link? then s.(index := 0, expects := !s.expects)
    else s.(index := s.index + 1, fetched := s.fetched + [t.body], fetchedAt := s.fetchedAt + [s.index])
  }

  ghost predicate Next<W>(s: System<W>, step: Step<W>, s': System<W>)
    requires WellFormed(s.ring)
  {
    match step
    case Push(w) =>
      s' == if IsFull(s.ring) then s else s.(ring := Stored(s.ring, w), pushed := s.pushed + [w])
    case Fetch =>
      s.index < |s.ring.data| && s' == AfterFetch(s)
    case Ack(e) =>
      // completion events arrive in order and only for TRBs already fetched
      && s.acked <= e < |s.fetchedAt|
      && s' == s.(ring := s.ring.(deque := NextPtr(|s.ring.data|, s.fetchedAt[e])), acked := e + 1)
  }

  /** The j-th TRB of the tape is still in its slot. */
  ghost predicate HeldAt<W>(data: seq<Trb<W>>, pushed: seq<W>, j: nat)
    requires |data| >= 2 && j < |pushed|
  {
    data[Slot(|data| - 1, j)] == Trb(Work(pushed[j]), Phase(|data| - 1, j))
  }

  ghost predicate SlotsHoldTape<W>(r: Ring<W>, pushed: seq<W>)
    requires |r.data| >= 2
  {
    var m := |r.data| - 1;
    && (forall j: nat {:trigger HeldAt(r.data, pushed, j)} :: j < |pushed| < j + m + 1 ==> HeldAt(r.data, pushed, j))
    && (forall i :: |pushed| <= i < m ==> r.data[i] == Trb(Blank, false))
    && r.data[m] == Trb(Link, !r.cycleState)
  }

  ghost predicate ControllerInStep<W>(s: System<W>)
    requires |s.ring.data| >= 2
  {
    var m := |s.ring.data| - 1;
    var n := |s.fetched|;
    || (s.index == Slot(m, n) && s.expects == Phase(m, n))
    || (s.index == m && n > 0 && Slot(m, n) == 0 && s.expects != Phase(m, n))
  }

  /** What was fetched is what was pushed, in order, each from the slot it was put in. */
  ghost predicate FetchedInOrder<W>(fetched: seq<Body<W>>, at: seq<nat>, pushed: seq<W>, m: nat) {
    && m >= 1 && |at| == |fetched| <= |pushed|
    && forall i :: 0 <= i < |fetched| ==> fetched[i] == Work(pushed[i]) && at[i] == Slot(m, i)
  }

  lemma MorePushed<W>(fetched: seq<Body<W>>, at: seq<nat>, pushed: seq<W>, m: nat, w: W)
    requires FetchedInOrder(fetched, at, pushed, m)
    ensures FetchedInOrder(fetched, at, pushed + [w], m)
  {
  }

  lemma MoreFetched<W>(fetched: seq<Body<W>>, at: seq<nat>, pushed: seq<W>, m: nat)
    requires FetchedInOrder(fetched, at, pushed, m) && |fetched| < |pushed|
    ensures FetchedInOrder(fetched + [Work(pushed[|fetched|])], at + [Slot(m, |fetched|)], pushed, m)
  {
  }

  ghost predicate Inv<W>(s: System<W>) {
    && |s.ring.data| >= 2
    && var m := |s.ring.data| - 1;
    && s.ring.enque == Slot(m, |s.pushed|)
    && s.ring.cycleState == Phase(m, |s.pushed|)
    && s.ring.deque == Slot(m, s.acked)
    && s.acked <= |s.fetched| <= |s.pushed|
    && |s.pushed| - s.acked <= m - 1
    && FetchedInOrder(s.fetched, s.fetchedAt, s.pushed, m)
    && SlotsHoldTape(s.ring, s.pushed)
    && ControllerInStep(s)
  }

  lemma StartInv<W>(size: nat)
    requires size >= 2
    ensures Inv(Start<W>(size))
  {
  }

  /** A push fails exactly when N - 2 pushed TRBs are unacknowledged. */
  lemma FullIffOutstanding<W>(s: System<W>)
    requires Inv(s)
    ensures IsFull(s.ring) <==> |s.pushed| - s.acked == |s.ring.data| - 2
  {
    var m := |s.ring.data| - 1;
    SlotAhead(m, s.acked, |s.pushed| - s.acked);
    assert Slot(m, |s.pushed| + 1) == NextPtr(m + 1, s.ring.enque);
    SlotAhead(m, s.acked, |s.pushed| + 1 - s.acked);
  }

  /** Storing touches the enqueue slot and, at the end of a lap, the link TRB. */
  lemma StoredData<W>(r: Ring<W>, w: W, i: nat)
    requires WellFormed(r) && i < |r.data|
    requires r.data[|r.data| - 1] == Trb(Link, !r.cycleState)
    ensures var r' := Stored(r, w);
            && |r'.data| == |r.data|
            && r'.data[i] == if i == r.enque then Trb(Work(w), r.cycleState)
                             else if i == |r.data| - 1 then Trb(Link, !r'.cycleState)
                             else r.data[i]
  {
  }

  /** The TRBs of the last lap are not where the next one is stored. */
  lemma StoredKeepsSlot<W>(r: Ring<W>, w: W, j: nat, n: nat)
    requires WellFormed(r) && r.enque == Slot(|r.data| - 1, n) && j < n < j + |r.data| - 1
    requires r.data[|r.data| - 1] == Trb(Link, !r.cycleState)
    ensures var i := Slot(|r.data| - 1, j); |Stored(r, w).data| == |r.data| && Stored(r, w).data[i] == r.data[i]
  {
    SlotsDistinct(|r.data| - 1, j, n);
    StoredData(r, w, Slot(|r.data| - 1, j));
  }

  lemma HeldAfterStore<W>(r: Ring<W>, pushed: seq<W>, w: W, j: nat)
    requires WellFormed(r) && r.data[|r.data| - 1] == Trb(Link, !r.cycleState)
    requires var m := |r.data| - 1; r.enque == Slot(m, |pushed|) && r.cycleState == Phase(m, |pushed|)
    requires j <= |pushed| < j + |r.data| - 1
    requires j < |pushed| ==> HeldAt(r.data, pushed, j)
    ensures |Stored(r, w).data| == |r.data| && HeldAt(Stored(r, w).data, pushed + [w], j)
  {
    if j < |pushed| {
      StoredKeepsSlot(r, w, j, |pushed|);
    } else {
      StoredData(r, w, r.enque);
    }
  }

  lemma StoredHoldsTape<W>(r: Ring<W>, pushed: seq<W>, w: W)
    requires WellFormed(r) && SlotsHoldTape(r, pushed)
    requires var m := |r.data| - 1; r.enque == Slot(m, |pushed|) && r.cycleState == Phase(m, |pushed|)
    ensures SlotsHoldTape(Stored(r, w), pushed + [w])
  {
    var m, n := |r.data| - 1, |pushed|;
    StoredData(r, w, m);
    forall i | n + 1 <= i < m
      ensures Stored(r, w).data[i] == Trb(Blank, false)
    {
      FreshSlots(m, n);
      StoredData(r, w, i);
    }
    forall j: nat | j < n + 1 < j + m + 1
      ensures HeldAt(Stored(r, w).data, pushed + [w], j)
    {
      HeldAfterStore(r, pushed, w, j);
    }
  }

  lemma StoredMoves<W>(r: Ring<W>, w: W, n: nat)
    requires WellFormed(r) && r.enque == Slot(|r.data| - 1, n) && r.cycleState == Phase(|r.data| - 1, n)
    ensures var r' := Stored(r, w); var m := |r.data| - 1;
      |r'.data| == |r.data| && r'.deque == r.deque && r'.enque == Slot(m, n + 1) && r'.cycleState == Phase(m, n + 1)
  {
  }

  lemma PushKeepsInv<W>(s: System<W>, w: W)
    requires Inv(s) && !IsFull(s.ring)
    ensures Inv(s.(ring := Stored(s.ring, w), pushed := s.pushed + [w]))
  {
    FullIffOutstanding(s);
    StoredMoves(s.ring, w, |s.pushed|);
    StoredHoldsTape(s.ring, s.pushed, w);
    MorePushed(s.fetched, s.fetchedAt, s.pushed, |s.ring.data| - 1, w);
  }

  /** Before the first lap ends the n-th TRB sits at index n. */
  lemma {:induction false} FreshSlots(m: nat, n: nat)
    requires m >= 1
    ensures n < m ==> Slot(m, n) == n && Phase(m, n)
  {
    if n > 0 { FreshSlots(m, n - 1); }
  }

  /** What the controller finds at the slot it looks at. */
  lemma NextTrb<W>(s: System<W>)
    requires Inv(s) && s.index == Slot(|s.ring.data| - 1, |s.fetched|)
    ensures s.index < |s.ring.data| - 1
    ensures |s.fetched| < |s.pushed| ==> s.ring.data[s.index] == Trb(Work(s.pushed[|s.fetched|]), s.expects)
    ensures |s.fetched| == |s.pushed| ==> s.ring.data[s.index].cycle != s.expects
  {
    var m := |s.ring.data| - 1;
    var n := |s.fetched|;
    if n == |s.pushed| {
      if n >= m {
        SlotAhead(m, n - m, m);
        assert HeldAt(s.ring.data, s.pushed, n - m);
      } else {
        FreshSlots(m, n);
      }
    } else {
      assert HeldAt(s.ring.data, s.pushed, n);
    }
  }

  lemma FetchKeepsInv<W>(s: System<W>)
    requires Inv(s)
    ensures s.index < |s.ring.data|
    ensures Inv(AfterFetch(s))
  {
    var m := |s.ring.data| - 1;
    if s.index == m {
      LinkIsReady(s);
    } else {
      NextTrb(s);
      if |s.fetched| < |s.pushed| { MoreFetched(s.fetched, s.fetchedAt, s.pushed, m); }
    }
  }

  /** A controller waiting at the link TRB always owns it: it is never stuck there. */
  lemma LinkIsReady<W>(s: System<W>)
    requires Inv(s) && s.index == |s.ring.data| - 1
    ensures s.ring.data[s.index] == Trb(Link, s.expects)
  {
    var m := |s.ring.data| - 1;
    SlotAhead(m, |s.fetched|, |s.pushed| - |s.fetched|);
  }

  lemma AckKeepsInv<W>(s: System<W>, e: nat)
    requires Inv(s) && s.acked <= e < |s.fetchedAt|
    ensures Inv(s.(ring := s.ring.(deque := NextPtr(|s.ring.data|, s.fetchedAt[e])), acked := e + 1))
  {
    var m := |s.ring.data| - 1;
    assert Slot(m, e + 1) == NextPtr(m + 1, Slot(m, e));
  }

  lemma PushStepKeepsInv<W>(s: System<W>, w: W, s': System<W>)
    requires Inv(s) && Next(s, Push(w), s')
    ensures Inv(s') && |s'.ring.data| == |s.ring.data|
  {
    if !IsFull(s.ring) {
      PushKeepsInv(s, w);
      StoredMoves(s.ring, w, |s.pushed|);
    }
  }

  lemma NextKeepsInv<W>(s: System<W>, step: Step<W>, s': System<W>)
    requires Inv(s) && Next(s, step, s')
    ensures Inv(s') && |s'.ring.data| == |s.ring.data|
  {
    match step
    case Push(w) => PushStepKeepsInv(s, w, s');
    case Fetch => FetchKeepsInv(s);
    case Ack(e) => AckKeepsInv(s, e);
  }

  /** A run of the system, one state longer than its schedule. */
  ghost predicate IsRun<W>(size: nat, states: seq<System<W>>, steps: seq<Step<W>>)
    requires size >= 2
  {
    && |states| == |steps| + 1
    && states[0] == Start(size)
    && forall i :: 0 <= i < |steps| ==> WellFormed(states[i].ring) && Next(states[i], steps[i], states[i + 1])
  }

  lemma RunStepKeepsInv<W>(size: nat, states: seq<System<W>>, steps: seq<Step<W>>, i: nat)
    requires size >= 2 && IsRun(size, states, steps) && i < |steps| && Inv(states[i])
    ensures Inv(states[i + 1]) && |states[i + 1].ring.data| == |states[i].ring.data|
  {
    assert Next(states[i], steps[i], states[i + 1]);
    NextKeepsInv(states[i], steps[i], states[i + 1]);
  }

  lemma {:induction false} RunInv<W>(size: nat, states: seq<System<W>>, steps: seq<Step<W>>, i: nat)
    requires size >= 2 && IsRun(size, states, steps) && i <= |steps|
    ensures Inv(states[i]) && |states[i].ring.data| == size
  {
    if i == 0 {
      StartInv<W>(size);
    } else {
      RunInv(size, states, steps, i - 1);
      RunStepKeepsInv(size, states, steps, i - 1);
    }
  }

  /**
    The controller has fetched exactly the pushed work, in order, the k-th TRB from the slot that the k-th
    push was stored at, and at most N - 2 TRBs are unacknowledged.
   */
  ghost predicate InOrder<W>(s: System<W>, size: nat) {
    && size >= 2 && s.acked <= |s.fetched| <= |s.pushed| && |s.pushed| - s.acked <= size - 2
    && FetchedInOrder(s.fetched, s.fetchedAt, s.pushed, size - 1)
  }

  /** Whatever the interleaving; and the next push goes to the slot that its TRB will be fetched from. */
  lemma RingIsFifo<W>(size: nat, states: seq<System<W>>, steps: seq<Step<W>>, i: nat)
    requires size >= 2 && IsRun(size, states, steps) && i <= |steps|
    ensures InOrder(states[i], size)
    ensures |states[i].ring.data| == size && states[i].ring.enque == Slot(size - 1, |states[i].pushed|)
    ensures IsFull(states[i].ring) <==> |states[i].pushed| - states[i].acked == size - 2
  {
    RunInv(size, states, steps, i);
    FullIffOutstanding(states[i]);
  }

  /** At a slot, pending work is fetched by one look. */
  lemma SlotIsFetched<W>(s: System<W>)
    requires Inv(s) && |s.fetched| < |s.pushed| && s.index != |s.ring.data| - 1
    ensures s.index < |s.ring.data| && AfterFetch(s).fetched == s.fetched + [Work(s.pushed[|s.fetched|])]
  {
    NextTrb(s);
  }

  /** At the link, one look leads to a slot. */
  lemma LinkIsFollowed<W>(s: System<W>)
    requires Inv(s) && s.index == |s.ring.data| - 1
    ensures var s1 := AfterFetch(s); Inv(s1) && s1 == s.(index := 0, expects := !s.expects)
    ensures |s.ring.data| >= 2
  {
    LinkIsReady(s);
    FetchKeepsInv(s);
  }

  /** Work that is pushed and not yet fetched is fetched after at most two looks. */
  lemma ControllerMakesProgress<W>(s: System<W>)
    requires Inv(s) && |s.fetched| < |s.pushed|
    ensures s.index < |s.ring.data|
    ensures var s1 := AfterFetch(s);
            var next := s.fetched + [Work(s.pushed[|s.fetched|])];
            s1.fetched == next || (s1.index < |s1.ring.data| && AfterFetch(s1).fetched == next)
  {
    if s.index == |s.ring.data| - 1 {
      LinkIsFollowed(s);
      SlotIsFetched(AfterFetch(s));
    } else {
      SlotIsFetched(s);
    }
  }
}
