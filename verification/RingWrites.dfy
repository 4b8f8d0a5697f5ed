/**
  A push is two writes to memory that the controller reads: first the TRB, then, at the end of a lap, the
  cycle bit of the link TRB.  Here the controller may look between them.  Every run of this finer machine is
  a run of the one in `TrbRing`, in which a push is a single step, with some looks that find nothing.
 */
module RingWrites {
  import opened TrbRing

  // ---------------------------------------------------------------- the finer machine

  /** `sys.ring` is what is in memory; `pending` says that a push has done its first write only. */
  datatype Fine<+W> = Fine(sys: System<W>, pending: bool)

  datatype FineStep<+W> = Store(work: W) | Advance | Look | Acknowledge(event: nat)

  ghost predicate FineNext<W>(f: Fine<W>, step: FineStep<W>, f': Fine<W>)
    requires WellFormed(f.sys.ring)
  {
    match step
    case Store(w) =>
      && !f.pending
      && f' == if IsFull(f.sys.ring) then f
               else Fine(f.sys.(ring := Written(f.sys.ring, w), pushed := f.sys.pushed + [w]), true)
    case Advance =>
      f.pending && f' == Fine(f.sys.(ring := Advanced(f.sys.ring)), false)
    case Look =>
      f.sys.index < |f.sys.ring.data| && f' == f.(sys := AfterFetch(f.sys))
    case Acknowledge(e) =>
      // the driver finishes a push before it handles an event
      && !f.pending && Next(f.sys, Ack(e), f'.sys) && !f'.pending
  }

  /** The state as it will be when the push under way is done. */
  ghost function Settled<W>(f: Fine<W>): System<W>
    requires WellFormed(f.sys.ring)
  {
    if f.pending then f.sys.(ring := Advanced(f.sys.ring)) else f.sys
  }

  ghost predicate FineInv<W>(f: Fine<W>) {
    && WellFormed(f.sys.ring) && Inv(Settled(f))
    && (f.pending ==> var last := |f.sys.ring.data| - 1; f.sys.ring.data[last] == Trb(Link, !f.sys.ring.cycleState))
  }

  /** The controller is at the link TRB while the push that completes the lap is between its two writes. */
  ghost predicate BetweenWrites<W>(f: Fine<W>) {
    f.pending && f.sys.index == f.sys.ring.enque + 1 == |f.sys.ring.data| - 1
  }

  /** It then finds the old cycle bit and waits; when the second write is done it follows the link. */
  lemma WaitsAndResumes<W>(f: Fine<W>)
    requires FineInv(f) && BetweenWrites(f)
    ensures AfterFetch(f.sys) == f.sys
    ensures var s := Settled(f); AfterFetch(s) == s.(index := 0, expects := !s.expects)
  {
    var s, m := Settled(f), |f.sys.ring.data| - 1;
    LinkIsReady(s);
    SlotAhead(m, |s.fetched|, |s.pushed| - |s.fetched|);
  }

  /** Any other look finds what it would find with the push done. */
  lemma LookCommutes<W>(f: Fine<W>)
    requires FineInv(f) && !BetweenWrites(f)
    ensures f.sys.index < |f.sys.ring.data| && Settled(f).index == f.sys.index
    ensures Settled(f.(sys := AfterFetch(f.sys))) == AfterFetch(Settled(f))
  {
  }

  lemma StoreIsPush<W>(f: Fine<W>, w: W, f': Fine<W>)
    requires FineInv(f) && FineNext(f, Store(w), f')
    ensures FineInv(f') && |f'.sys.ring.data| == |f.sys.ring.data| && Next(Settled(f), Push(w), Settled(f'))
  {
    if !IsFull(f.sys.ring) {
      StoredIsBothWrites(f.sys.ring, w);
      PushKeepsInv(f.sys, w);
    }
  }

  lemma LookIsFetch<W>(f: Fine<W>, f': Fine<W>)
    requires FineInv(f) && FineNext(f, Look, f')
    ensures FineInv(f') && |f'.sys.ring.data| == |f.sys.ring.data|
    ensures if BetweenWrites(f) then f' == f else Next(Settled(f), Fetch, Settled(f'))
  {
    if BetweenWrites(f) {
      WaitsAndResumes(f);
    } else {
      LookMoves(f, f');
    }
  }

  lemma LookMoves<W>(f: Fine<W>, f': Fine<W>)
    requires FineInv(f) && !BetweenWrites(f) && f.sys.index < |f.sys.ring.data| && f' == f.(sys := AfterFetch(f.sys))
    ensures FineInv(f') && Settled(f).index < |Settled(f).ring.data| && Settled(f') == AfterFetch(Settled(f))
  {
    LookCommutes(f);
    FetchKeepsInv(Settled(f));
    assert f'.sys.ring == f.sys.ring;
  }

  lemma AdvanceSettles<W>(f: Fine<W>, f': Fine<W>)
    requires FineInv(f) && FineNext(f, Advance, f')
    ensures FineInv(f') && |f'.sys.ring.data| == |f.sys.ring.data| && Settled(f') == Settled(f)
  {
  }

  lemma AckIsAck<W>(f: Fine<W>, e: nat, f': Fine<W>)
    requires FineInv(f) && FineNext(f, Acknowledge(e), f')
    ensures FineInv(f') && |f'.sys.ring.data| == |f.sys.ring.data| && Next(Settled(f), Ack(e), Settled(f'))
  {
    AckKeepsInv(f.sys, e);
  }

  /** Every finer step is a step of the machine with atomic pushes, or changes nothing there. */
  lemma FineStepRefines<W>(f: Fine<W>, step: FineStep<W>, f': Fine<W>)
    requires FineInv(f) && FineNext(f, step, f')
    ensures FineInv(f') && |f'.sys.ring.data| == |f.sys.ring.data|
    ensures match step
      case Store(w) => Next(Settled(f), Push(w), Settled(f'))
      case Advance => Settled(f') == Settled(f)
      case Look => if BetweenWrites(f) then f' == f else Next(Settled(f), Fetch, Settled(f'))
      case Acknowledge(e) => Next(Settled(f), Ack(e), Settled(f'))
  {
    match step
    case Store(w) => StoreIsPush(f, w, f');
    case Advance => AdvanceSettles(f, f');
    case Look => LookIsFetch(f, f');
    case Acknowledge(e) => AckIsAck(f, e, f');
  }

  // ---------------------------------------------------------------- every run

  ghost predicate IsFineRun<W>(size: nat, states: seq<Fine<W>>, steps: seq<FineStep<W>>)
    requires size >= 2
  {
    && |states| == |steps| + 1 && states[0] == Fine(Start(size), false)
    && forall i :: 0 <= i < |steps| ==> WellFormed(states[i].sys.ring) && FineNext(states[i], steps[i], states[i + 1])
  }

  lemma {:induction false} FineRunInv<W>(size: nat, states: seq<Fine<W>>, steps: seq<FineStep<W>>, i: nat)
    requires size >= 2 && IsFineRun(size, states, steps) && i <= |steps|
    ensures FineInv(states[i]) && |states[i].sys.ring.data| == size
  {
    if i == 0 {
      StartInv<W>(size);
    } else {
      FineRunInv(size, states, steps, i - 1);
      assert FineNext(states[i - 1], steps[i - 1], states[i - 1 + 1]);
      FineStepRefines(states[i - 1], steps[i - 1], states[i]);
    }
  }

  /** With looks between the two writes as well, the pushed work is fetched in order from where it was put. */
  lemma FineRingIsFifo<W>(size: nat, states: seq<Fine<W>>, steps: seq<FineStep<W>>, i: nat)
    requires size >= 2 && IsFineRun(size, states, steps) && i <= |steps|
    ensures InOrder(states[i].sys, size)
  {
    FineRunInv(size, states, steps, i);
  }
}
