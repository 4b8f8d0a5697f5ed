/**
  Which completion event answers which request, over every run of the driver and the
  controllers of all its transfer rings.

  Listeners are filed under TRB addresses, and addresses are reused lap after lap.
  The argument is split in two: `Book` is the bookkeeping alone (what is pushed, what is
  acknowledged, who listens where), and `World` adds the rings, whose cycle-bit protocol
  is what makes the addresses in the controller's reports trustworthy.
 */
module Listeners {
  import opened Common
  import opened TrbRing
  import opened TransferRings

  // ---------------------------------------------------------------- bookkeeping

  /** One ring: `channels[j]` is the channel made for its j-th TRB, if it interrupts. */
  datatype Line = Line(base: nat, acked: nat, channels: seq<Option<nat>>)

  /** `issued[c]` is the ring and the TRB address channel `c` was made for. */
  datatype Book = Book(
    lines: map<Key, Line>,
    listener: map<nat, nat>,
    issued: seq<(Key, nat)>,
    replies: map<nat, Reply>,
    ringSize: nat)

  /** The j-th TRB of ring `key` interrupts, and no acknowledgement has passed it. */
  ghost predicate Waits(b: Book, key: Key, j: nat) {
    && key in b.lines
    && b.lines[key].acked <= j < |b.lines[key].channels|
    && b.lines[key].channels[j].Some?
  }

  ghost function AddrOf(b: Book, key: Key, j: nat): nat
    requires b.ringSize >= 2 && key in b.lines
  {
    TrbAddress(b.lines[key].base, Slot(b.ringSize - 1, j))
  }

  ghost predicate RangesApart(a: nat, b: nat, ringSize: nat) {
    a + TRB_BYTES * ringSize <= b || b + TRB_BYTES * ringSize <= a
  }

  ghost predicate LineOk(l: Line, ringSize: nat) {
    l.acked <= |l.channels| <= l.acked + ringSize - 2
  }

  /** The listener at the TRB's address is the channel made when it was pushed, still unanswered. */
  ghost predicate Filed(b: Book, key: Key, j: nat)
    requires b.ringSize >= 2 && Waits(b, key, j)
  {
    var a := AddrOf(b, key, j);
    && a in b.listener
    && b.lines[key].channels[j] == Some(b.listener[a])
    && b.listener[a] < |b.issued|
    && b.listener[a] !in b.replies
    && b.issued[b.listener[a]] == (key, a)
  }

  /** An unanswered channel is filed at its TRB's address; an answered one was told of its own TRB. */
  ghost predicate ChannelOk(b: Book, c: nat)
    requires c < |b.issued|
  {
    var (key, a) := b.issued[c];
    if c in b.replies
    then b.replies[c].event.key == key && b.replies[c].event.trbPointer == a
    else a in b.listener && b.listener[a] == c
  }

  ghost predicate LinesOk(b: Book) {
    && b.ringSize >= 2
    && (forall k {:trigger LineOk(b.lines[k], b.ringSize)} :: k in b.lines ==> LineOk(b.lines[k], b.ringSize))
    && (forall k, l {:trigger RangesApart(b.lines[k].base, b.lines[l].base, b.ringSize)} ::
          k in b.lines && l in b.lines && k != l ==> RangesApart(b.lines[k].base, b.lines[l].base, b.ringSize))
  }

  ghost predicate HasWaiter(b: Book, a: nat)
    requires b.ringSize >= 2
  {
    exists k, j :: Waits(b, k, j) && AddrOf(b, k, j) == a
  }

  /** The answer to a channel is about the TRB the channel was made for. */
  ghost predicate ReplyOk(b: Book, c: nat)
    requires c in b.replies
  {
    c < |b.issued| && b.replies[c].event.key == b.issued[c].0 && b.replies[c].event.trbPointer == b.issued[c].1
  }

  /** Every outstanding TRB will answer its own channel, and every answer so far did. */
  ghost predicate BookSound(b: Book) {
    && LinesOk(b)
    && (forall k, j {:trigger Filed(b, k, j)} :: Waits(b, k, j) ==> Filed(b, k, j))
    && (forall c {:trigger ReplyOk(b, c)} :: c in b.replies ==> ReplyOk(b, c))
  }

  /** And no listener or channel is left without its TRB. */
  ghost predicate BookOk(b: Book) {
    && BookSound(b)
    && (forall a {:trigger HasWaiter(b, a)} :: a in b.listener ==> HasWaiter(b, a))
    && (forall c {:trigger ChannelOk(b, c)} :: 0 <= c < |b.issued| ==> ChannelOk(b, c))
  }

  ghost predicate IdleRing(b: Book, key: Key) {
    forall j :: !Waits(b, key, j)
  }

  ghost function BookInit(b: Book, key: Key, base: nat): Book {
    b.(lines := b.lines[key := Line(base, 0, [])])
  }

  ghost function BookPush(b: Book, key: Key, waits: bool): Book
    requires b.ringSize >= 2 && key in b.lines
  {
    var l := b.lines[key];
    var c := |b.issued|;
    var a := AddrOf(b, key, |l.channels|);
    if waits
    then b.(lines := b.lines[key := l.(channels := l.channels + [Some(c)])],
            listener := b.listener[a := c],
            issued := b.issued + [(key, a)])
    else b.(lines := b.lines[key := l.(channels := l.channels + [None])])
  }

  ghost function BookReport(b: Book, key: Key, e: nat, reply: Reply): Book
    requires b.ringSize >= 2 && key in b.lines && AddrOf(b, key, e) in b.listener
  {
    var a := AddrOf(b, key, e);
    b.(lines := b.lines[key := b.lines[key].(acked := e + 1)],
       listener := b.listener - {a},
       replies := b.replies[b.listener[a] := reply])
  }

  /** TRBs that may be outstanding together have different addresses, in one ring or in two. */
  lemma AddressesDiffer(b: Book, k: Key, i: nat, l: Key, j: nat)
    requires LinesOk(b) && k in b.lines && l in b.lines && (k, i) != (l, j)
    requires b.lines[k].acked <= i <= |b.lines[k].channels|
    requires b.lines[l].acked <= j <= |b.lines[l].channels|
    ensures AddrOf(b, k, i) != AddrOf(b, l, j)
  {
    var m := b.ringSize - 1;
    assert LineOk(b.lines[k], b.ringSize) && LineOk(b.lines[l], b.ringSize);
    if k == l {
      if i < j { SlotsDistinct(m, i, j); } else { SlotsDistinct(m, j, i); }
    } else {
      assert RangesApart(b.lines[k].base, b.lines[l].base, b.ringSize);
    }
  }

  /** No listener sits at the address the next push will use. */
  lemma NotFiledYet(b: Book, key: Key)
    requires BookOk(b) && key in b.lines
    ensures AddrOf(b, key, |b.lines[key].channels|) !in b.listener
  {
    var a := AddrOf(b, key, |b.lines[key].channels|);
    if a in b.listener {
      assert HasWaiter(b, a);
      var k, j :| Waits(b, k, j) && AddrOf(b, k, j) == a;
      assert LineOk(b.lines[key], b.ringSize);
      AddressesDiffer(b, k, j, key, |b.lines[key].channels|);
    }
  }

  // Each step, fact by fact.

  lemma InitKeepsEntry(b: Book, key: Key, base: nat, k: Key, j: nat)
    requires BookSound(b) && Waits(BookInit(b, key, base), k, j)
    ensures Filed(BookInit(b, key, base), k, j)
  {
    assert Waits(b, k, j) && Filed(b, k, j);
  }

  lemma InitKeepsWaiter(b: Book, key: Key, base: nat, a: nat)
    requires BookOk(b) && a in b.listener && IdleRing(b, key)
    ensures HasWaiter(BookInit(b, key, base), a)
  {
    assert HasWaiter(b, a);
    var k, j :| Waits(b, k, j) && AddrOf(b, k, j) == a;
    assert Waits(BookInit(b, key, base), k, j);
  }

  /** The listener of a TRB that was still outstanding on the replaced ring is left without a TRB. */
  lemma InitLosesWaiter(b: Book, key: Key, base: nat, j: nat)
    requires BookSound(b) && Waits(b, key, j)
    ensures AddrOf(b, key, j) in b.listener && !HasWaiter(BookInit(b, key, base), AddrOf(b, key, j))
  {
    assert Filed(b, key, j);
    var b', a := BookInit(b, key, base), AddrOf(b, key, j);
    if HasWaiter(b', a) {
      var k, i :| Waits(b', k, i) && AddrOf(b', k, i) == a;
      AddressesDiffer(b, k, i, key, j);
    }
  }

  lemma InitKeepsSound(b: Book, key: Key, base: nat)
    requires BookSound(b)
    requires forall k :: k in b.lines && k != key ==> RangesApart(base, b.lines[k].base, b.ringSize)
    ensures BookSound(BookInit(b, key, base))
  {
    var b' := BookInit(b, key, base);
    forall k, j | Waits(b', k, j) ensures Filed(b', k, j) { InitKeepsEntry(b, key, base, k, j); }
    forall c | c in b'.replies ensures ReplyOk(b', c) { assert ReplyOk(b, c); }
  }

  /** Replacing a ring keeps listeners and outstanding TRBs in agreement exactly when nothing waits on it. */
  lemma InitKeepsBook(b: Book, key: Key, base: nat)
    requires BookOk(b)
    requires forall k :: k in b.lines && k != key ==> RangesApart(base, b.lines[k].base, b.ringSize)
    ensures BookOk(BookInit(b, key, base)) <==> IdleRing(b, key)
  {
    var b' := BookInit(b, key, base);
    if j :| Waits(b, key, j) {
      InitLosesWaiter(b, key, base, j);
    } else {
      InitKeepsSound(b, key, base);
      forall a | a in b'.listener ensures HasWaiter(b', a) { InitKeepsWaiter(b, key, base, a); }
      forall c | 0 <= c < |b'.issued| ensures ChannelOk(b', c) { assert ChannelOk(b, c); }
    }
  }

  lemma PushKeepsEntry(b: Book, key: Key, waits: bool, k: Key, j: nat)
    requires BookSound(b) && key in b.lines && Waits(BookPush(b, key, waits), k, j)
    ensures Filed(BookPush(b, key, waits), k, j)
  {
    var n := |b.lines[key].channels|;
    assert |b.issued| in b.replies ==> ReplyOk(b, |b.issued|);
    if (k, j) != (key, n) {
      assert Waits(b, k, j) && Filed(b, k, j);
      assert LineOk(b.lines[key], b.ringSize);
      AddressesDiffer(b, k, j, key, n);
    }
  }

  lemma PushKeepsWaiter(b: Book, key: Key, waits: bool, a: nat)
    requires BookOk(b) && key in b.lines && a in BookPush(b, key, waits).listener
    ensures HasWaiter(BookPush(b, key, waits), a)
  {
    var b' := BookPush(b, key, waits);
    if a in b.listener {
      assert HasWaiter(b, a);
      var k, j :| Waits(b, k, j) && AddrOf(b, k, j) == a;
      assert Waits(b', k, j);
    } else {
      assert LineOk(b.lines[key], b.ringSize);
      assert Waits(b', key, |b.lines[key].channels|);
    }
  }

  lemma PushKeepsChannel(b: Book, key: Key, waits: bool, c: nat)
    requires BookOk(b) && key in b.lines && c < |BookPush(b, key, waits).issued|
    ensures ChannelOk(BookPush(b, key, waits), c)
  {
    NotFiledYet(b, key);
    assert c in b.replies ==> ReplyOk(b, c);
    if c < |b.issued| { assert ChannelOk(b, c); }
  }

  lemma PushKeepsSound(b: Book, key: Key, waits: bool)
    requires BookSound(b) && key in b.lines
    requires |b.lines[key].channels| - b.lines[key].acked < b.ringSize - 2
    ensures BookSound(BookPush(b, key, waits))
  {
    var b' := BookPush(b, key, waits);
    assert LineOk(b.lines[key], b.ringSize);
    forall k, j | Waits(b', k, j) ensures Filed(b', k, j) { PushKeepsEntry(b, key, waits, k, j); }
    forall c | c in b'.replies ensures ReplyOk(b', c) { assert ReplyOk(b, c); }
  }

  lemma PushKeepsBook(b: Book, key: Key, waits: bool)
    requires BookOk(b) && key in b.lines
    requires |b.lines[key].channels| - b.lines[key].acked < b.ringSize - 2
    ensures BookOk(BookPush(b, key, waits))
  {
    var b' := BookPush(b, key, waits);
    PushKeepsSound(b, key, waits);
    forall a | a in b'.listener ensures HasWaiter(b', a) { PushKeepsWaiter(b, key, waits, a); }
    forall c | 0 <= c < |b'.issued| ensures ChannelOk(b', c) { PushKeepsChannel(b, key, waits, c); }
  }

  lemma ReportKeepsEntry(b: Book, key: Key, e: nat, reply: Reply, k: Key, j: nat)
    requires BookSound(b) && Waits(b, key, e) && AddrOf(b, key, e) in b.listener
    requires Waits(BookReport(b, key, e, reply), k, j)
    ensures Filed(BookReport(b, key, e, reply), k, j)
  {
    assert Waits(b, k, j) && Filed(b, k, j) && Filed(b, key, e);
    AddressesDiffer(b, k, j, key, e);
  }

  lemma ReportKeepsWaiter(b: Book, key: Key, e: nat, reply: Reply, a: nat)
    requires BookOk(b) && Waits(b, key, e) && AddrOf(b, key, e) in b.listener
    requires forall j :: b.lines[key].acked <= j < e ==> !Waits(b, key, j)
    requires a in BookReport(b, key, e, reply).listener
    ensures HasWaiter(BookReport(b, key, e, reply), a)
  {
    assert HasWaiter(b, a);
    var k, j :| Waits(b, k, j) && AddrOf(b, k, j) == a;
    assert Waits(BookReport(b, key, e, reply), k, j);
  }

  lemma ReportKeepsSound(b: Book, key: Key, e: nat, reply: Reply)
    requires BookSound(b) && Waits(b, key, e)
    requires reply.event.key == key && reply.event.trbPointer == AddrOf(b, key, e)
    ensures AddrOf(b, key, e) in b.listener && b.listener[AddrOf(b, key, e)] !in b.replies
    ensures BookSound(BookReport(b, key, e, reply))
  {
    assert Filed(b, key, e);
    var b' := BookReport(b, key, e, reply);
    assert LineOk(b.lines[key], b.ringSize);
    forall k, j | Waits(b', k, j) ensures Filed(b', k, j) { ReportKeepsEntry(b, key, e, reply, k, j); }
    forall c | c in b'.replies ensures ReplyOk(b', c) { if c in b.replies { assert ReplyOk(b, c); } }
  }

  lemma ReportKeepsBook(b: Book, key: Key, e: nat, reply: Reply)
    requires BookOk(b) && Waits(b, key, e)
    requires forall j :: b.lines[key].acked <= j < e ==> !Waits(b, key, j)
    requires reply.event.key == key && reply.event.trbPointer == AddrOf(b, key, e)
    ensures AddrOf(b, key, e) in b.listener && b.listener[AddrOf(b, key, e)] !in b.replies
    ensures BookOk(BookReport(b, key, e, reply))
  {
    ReportKeepsSound(b, key, e, reply);
    assert Filed(b, key, e);
    var b' := BookReport(b, key, e, reply);
    forall a | a in b'.listener ensures HasWaiter(b', a) { ReportKeepsWaiter(b, key, e, reply, a); }
    forall c | 0 <= c < |b'.issued| ensures ChannelOk(b', c) { assert ChannelOk(b, c); }
  }

  // ---------------------------------------------------------------- rings and bookkeeping together

  datatype World = World(sys: map<Key, System<Transfer>>, book: Book)

  datatype Action =
    | InitRing(key: Key, base: nat)
    | PushTrb(key: Key, transfer: Transfer)
    | Look(key: Key)
    | Report(key: Key, number: nat, code: Code)

  /** What the driver itself stores. */
  ghost function HostOf(w: World): Host
    requires w.sys.Keys == w.book.lines.Keys
  {
    Host(map k | k in w.sys :: HostRing(w.sys[k].ring, w.book.lines[k].base),
         w.book.listener, |w.book.issued|, w.book.replies)
  }

  /** A fresh ring at `base`, in place of any that was there before. */
  ghost function Made(w: World, key: Key, base: nat): World
    requires w.book.ringSize >= 2
  {
    World(w.sys[key := Start(w.book.ringSize)], BookInit(w.book, key, base))
  }

  /** The driver pushes `t`; the record notes the channel it made, if any. */
  ghost function AfterPush(w: World, key: Key, t: Transfer): World
    requires w.sys.Keys == w.book.lines.Keys && HostOk(HostOf(w)) && key in w.sys
  {
    var (h, r) := Pushed(HostOf(w), key, t);
    var s, l := w.sys[key], w.book.lines[key];
    if r.RingIsFull? then w
    else
      var channel := if r.Waiting? then Some(r.channel) else None;
      var note := if r.Waiting? then [(key, TrbAddress(l.base, s.ring.enque))] else [];
      World(w.sys[key := s.(ring := h.rings[key].ring, pushed := s.pushed + [t])],
            Book(w.book.lines[key := l.(channels := l.channels + [channel])],
                 h.listener, w.book.issued + note, h.replies, w.book.ringSize))
  }

  /** The event the controller raises for the e-th TRB of a ring, at the address it fetched it from. */
  ghost function EventOf(w: World, key: Key, e: nat, code: Code): TransferEvent
    requires key in w.sys && key in w.book.lines && e < |w.sys[key].fetchedAt|
  {
    TransferEvent(key, TrbAddress(w.book.lines[key].base, w.sys[key].fetchedAt[e]), code)
  }

  /** The driver handles `event`, which the record has as that of the e-th TRB of its ring. */
  ghost function AfterEvent(w: World, event: TransferEvent, e: nat): World
    requires w.sys.Keys == w.book.lines.Keys && event.key in w.sys
    requires PointsIntoRing(HostOf(w).rings[event.key], event.trbPointer)
  {
    var h, key := OnEvent(HostOf(w), event), event.key;
    World(w.sys[key := w.sys[key].(ring := h.rings[key].ring, acked := e + 1)],
          Book(w.book.lines[key := w.book.lines[key].(acked := e + 1)],
               h.listener, w.book.issued, h.replies, w.book.ringSize))
  }

  ghost function AfterReport(w: World, key: Key, e: nat, code: Code): World
    requires w.sys.Keys == w.book.lines.Keys
    requires key in w.sys && e < |w.sys[key].fetchedAt|
    requires PointsIntoRing(HostOf(w).rings[key], EventOf(w, key, e, code).trbPointer)
  {
    AfterEvent(w, EventOf(w, key, e, code), e)
  }

  /** The TRB that the controller reports next: the first outstanding one, once it was fetched. */
  ghost predicate ReportsNext(w: World, key: Key, e: nat) {
    && Waits(w.book, key, e)
    && (forall j :: w.book.lines[key].acked <= j < e ==> !Waits(w.book, key, j))
    && key in w.sys && e < |w.sys[key].fetchedAt|
  }

  ghost predicate RingKept(w: World, k: Key)
    requires k in w.sys && k in w.book.lines
  {
    var s, l := w.sys[k], w.book.lines[k];
    && Inv(s)
    && |s.ring.data| == w.book.ringSize
    && s.acked == l.acked
    && |s.pushed| == |l.channels|
    && forall j :: 0 <= j < |s.pushed| ==> (l.channels[j].Some? <==> Interrupting(s.pushed[j]))
  }

  ghost predicate WInv(w: World) {
    && BookSound(w.book)
    && w.sys.Keys == w.book.lines.Keys
    && forall k {:trigger RingKept(w, k)} :: k in w.sys ==> RingKept(w, k)
  }

  lemma HostIsOk(w: World)
    requires WInv(w)
    ensures HostOk(HostOf(w))
  {
    forall k | k in w.sys ensures WellFormed(w.sys[k].ring) { assert RingKept(w, k); }
  }

  lemma EventPointsIntoRing(w: World, key: Key, e: nat, code: Code)
    requires WInv(w) && ReportsNext(w, key, e)
    ensures var ptr := EventOf(w, key, e, code).trbPointer;
            && ptr == AddrOf(w.book, key, e)
            && PointsIntoRing(HostOf(w).rings[key], ptr)
            && (ptr - w.book.lines[key].base) / TRB_BYTES == w.sys[key].fetchedAt[e]
  {
    assert RingKept(w, key);
  }

  ghost predicate WNext(w: World, a: Action, w': World)
    requires WInv(w)
  {
    HostIsOk(w);
    match a
    case InitRing(key, base) =>
      // the allocator hands out unused memory; what is outstanding on the replaced ring is never reported
      && (forall k :: k in w.sys && k != key ==> RangesApart(base, w.book.lines[k].base, w.book.ringSize))
      && w' == Made(w, key, base)
    case PushTrb(key, t) =>
      key in w.sys && w' == AfterPush(w, key, t)
    case Look(key) =>
      && key in w.sys
      && w.sys[key].index < |w.sys[key].ring.data|
      && w' == w.(sys := w.sys[key := AfterFetch(w.sys[key])])
    case Report(key, e, code) =>
      && ReportsNext(w, key, e)
      && (EventPointsIntoRing(w, key, e, code); w' == AfterReport(w, key, e, code))
  }

  lemma PushAgrees(w: World, key: Key, t: Transfer)
    requires WInv(w) && HostOk(HostOf(w)) && key in w.sys
    requires WellFormed(w.sys[key].ring) && !IsFull(w.sys[key].ring)
    ensures AfterPush(w, key, t).book == BookPush(w.book, key, Interrupting(t))
    ensures var s := w.sys[key];
      AfterPush(w, key, t).sys[key] == s.(ring := Stored(s.ring, t), pushed := s.pushed + [t])
    ensures |w.book.lines[key].channels| - w.book.lines[key].acked < w.book.ringSize - 2
  {
    assert RingKept(w, key);
    FullIffOutstanding(w.sys[key]);
  }

  lemma ReportAgrees(w: World, key: Key, e: nat, code: Code)
    requires WInv(w) && ReportsNext(w, key, e)
    requires PointsIntoRing(HostOf(w).rings[key], EventOf(w, key, e, code).trbPointer)
    ensures AddrOf(w.book, key, e) in w.book.listener
    ensures AfterReport(w, key, e, code).book == BookReport(w.book, key, e, ReplyFor(EventOf(w, key, e, code)))
    ensures var s := w.sys[key];
            && |s.ring.data| >= 2
            && AfterReport(w, key, e, code).sys[key] ==
               s.(ring := s.ring.(deque := NextPtr(|s.ring.data|, s.fetchedAt[e])), acked := e + 1)
  {
    EventPointsIntoRing(w, key, e, code);
    assert Filed(w.book, key, e);
    assert RingKept(w, key);
  }

  lemma OtherRingsKept(w: World, w': World, key: Key)
    requires WInv(w)
    requires w'.book.ringSize == w.book.ringSize
    requires w'.sys.Keys == w'.book.lines.Keys
    requires forall k :: k in w'.sys && k != key ==>
               k in w.sys && w'.sys[k] == w.sys[k] && w'.book.lines[k] == w.book.lines[k]
    requires key in w'.sys ==> RingKept(w', key)
    ensures forall k {:trigger RingKept(w', k)} :: k in w'.sys ==> RingKept(w', k)
  {
    forall k | k in w'.sys
      ensures RingKept(w', k)
    {
      if k != key { assert RingKept(w, k); }
    }
  }

  lemma PushKeepsRing(w: World, key: Key, t: Transfer)
    requires WInv(w) && HostOk(HostOf(w)) && key in w.sys
    requires WellFormed(w.sys[key].ring) && !IsFull(w.sys[key].ring)
    ensures RingKept(AfterPush(w, key, t), key)
  {
    PushAgrees(w, key, t);
    assert RingKept(w, key);
    PushKeepsInv(w.sys[key], t);
  }

  lemma PushKeepsWorld(w: World, key: Key, t: Transfer)
    requires WInv(w) && HostOk(HostOf(w)) && key in w.sys
    ensures WInv(AfterPush(w, key, t))
  {
    assert WellFormed(HostOf(w).rings[key].ring);
    if !IsFull(w.sys[key].ring) {
      PushAgrees(w, key, t);
      PushKeepsSound(w.book, key, Interrupting(t));
      PushKeepsRing(w, key, t);
      OtherRingsKept(w, AfterPush(w, key, t), key);
    }
  }

  lemma ReportKeepsRing(w: World, key: Key, e: nat, code: Code)
    requires WInv(w) && ReportsNext(w, key, e)
    requires PointsIntoRing(HostOf(w).rings[key], EventOf(w, key, e, code).trbPointer)
    ensures RingKept(AfterReport(w, key, e, code), key)
  {
    ReportAgrees(w, key, e, code);
    assert RingKept(w, key);
    AckKeepsInv(w.sys[key], e);
  }

  lemma ReportKeepsWorld(w: World, key: Key, e: nat, code: Code)
    requires WInv(w) && ReportsNext(w, key, e)
    requires PointsIntoRing(HostOf(w).rings[key], EventOf(w, key, e, code).trbPointer)
    ensures WInv(AfterReport(w, key, e, code))
  {
    var w' := AfterReport(w, key, e, code);
    assert BookSound(w'.book) by {
      EventPointsIntoRing(w, key, e, code);
      ReportAgrees(w, key, e, code);
      ReportKeepsSound(w.book, key, e, ReplyFor(EventOf(w, key, e, code)));
    }
    assert RingKept(w', key) by { ReportKeepsRing(w, key, e, code); }
    OtherRingsKept(w, w', key);
  }

  lemma LookKeepsWorld(w: World, key: Key)
    requires WInv(w) && key in w.sys && w.sys[key].index < |w.sys[key].ring.data|
    ensures WInv(w.(sys := w.sys[key := AfterFetch(w.sys[key])]))
  {
    assert RingKept(w, key);
    FetchKeepsInv(w.sys[key]);
    OtherRingsKept(w, w.(sys := w.sys[key := AfterFetch(w.sys[key])]), key);
  }

  lemma InitKeepsWorld(w: World, key: Key, base: nat)
    requires WInv(w)
    requires forall k :: k in w.sys && k != key ==> RangesApart(base, w.book.lines[k].base, w.book.ringSize)
    ensures WInv(Made(w, key, base))
  {
    InitKeepsSound(w.book, key, base);
    StartInv<Transfer>(w.book.ringSize);
    OtherRingsKept(w, Made(w, key, base), key);
  }

  lemma WNextKeepsInv(w: World, a: Action, w': World)
    requires WInv(w) && WNext(w, a, w')
    ensures WInv(w')
  {
    HostIsOk(w);
    match a
    case InitRing(key, base) => InitKeepsWorld(w, key, base);
    case PushTrb(key, t) => PushKeepsWorld(w, key, t);
    case Look(key) => LookKeepsWorld(w, key);
    case Report(key, e, code) =>
      EventPointsIntoRing(w, key, e, code);
      ReportKeepsWorld(w, key, e, code);
  }

  /** The action does not replace a ring on which something waits. */
  ghost predicate LeavesWaiters(w: World, a: Action) {
    a.InitRing? ==> IdleRing(w.book, a.key)
  }

  /** The agreement of listeners and outstanding TRBs is lost exactly by replacing a ring on which something waits. */
  lemma AgreementKept(w: World, a: Action, w': World)
    requires WInv(w) && WNext(w, a, w') && BookOk(w.book)
    ensures BookOk(w'.book) <==> LeavesWaiters(w, a)
  {
    HostIsOk(w);
    match a
    case InitRing(key, base) => InitKeepsBook(w.book, key, base);
    case PushTrb(key, t) => PushKeepsAgreement(w, key, t);
    case Look(key) =>
    case Report(key, e, code) =>
      EventPointsIntoRing(w, key, e, code);
      ReportAgrees(w, key, e, code);
      ReportKeepsBook(w.book, key, e, ReplyFor(EventOf(w, key, e, code)));
  }

  lemma PushKeepsAgreement(w: World, key: Key, t: Transfer)
    requires WInv(w) && HostOk(HostOf(w)) && key in w.sys && BookOk(w.book)
    ensures BookOk(AfterPush(w, key, t).book)
  {
    assert WellFormed(HostOf(w).rings[key].ring);
    if !IsFull(w.sys[key].ring) {
      PushAgrees(w, key, t);
      PushKeepsBook(w.book, key, Interrupting(t));
    }
  }

  // ---------------------------------------------------------------- what it means for the callers

  ghost function EmptyWorld(ringSize: nat): World {
    World(map[], Book(map[], map[], [], map[], ringSize))
  }

  /** `WNext` is defined where the invariant holds, which `RunInvariant` shows is everywhere. */
  ghost predicate IsRun(ringSize: nat, states: seq<World>, actions: seq<Action>)
    requires ringSize >= 2
  {
    && |states| == |actions| + 1
    && states[0] == EmptyWorld(ringSize)
    && forall i {:trigger actions[i]} ::
      0 <= i < |actions| ==> WInv(states[i]) ==> WNext(states[i], actions[i], states[i + 1])
  }

  lemma {:induction false} RunInvariant(ringSize: nat, states: seq<World>, actions: seq<Action>, i: nat)
    requires ringSize >= 2 && IsRun(ringSize, states, actions) && i <= |actions|
    ensures WInv(states[i])
  {
    if i > 0 {
      RunInvariant(ringSize, states, actions, i - 1);
      assert WNext(states[i - 1], actions[i - 1], states[i - 1 + 1]);
      WNextKeepsInv(states[i - 1], actions[i - 1], states[i]);
    }
  }

  /** None of the first `n` actions replaces a ring on which something waits. */
  ghost predicate NoneStranded(states: seq<World>, actions: seq<Action>, n: nat)
    requires n <= |actions| < |states|
  {
    forall j {:trigger actions[j]} :: 0 <= j < n ==> LeavesWaiters(states[j], actions[j])
  }

  lemma {:induction false} RunAgrees(ringSize: nat, states: seq<World>, actions: seq<Action>, i: nat)
    requires ringSize >= 2 && IsRun(ringSize, states, actions) && i <= |actions| && NoneStranded(states, actions, i)
    ensures BookOk(states[i].book)
  {
    if i > 0 {
      RunAgrees(ringSize, states, actions, i - 1);
      RunInvariant(ringSize, states, actions, i - 1);
      assert WNext(states[i - 1], actions[i - 1], states[i - 1 + 1]);
      AgreementKept(states[i - 1], actions[i - 1], states[i]);
    }
  }

  /** Listeners and outstanding TRBs agree all along a run, if and only if no ring is replaced while one waits on it. */
  lemma AgreesIffNoneStranded(ringSize: nat, states: seq<World>, actions: seq<Action>)
    requires ringSize >= 2 && IsRun(ringSize, states, actions)
    ensures (forall i :: 0 <= i < |states| ==> BookOk(states[i].book)) <==> NoneStranded(states, actions, |actions|)
  {
    if NoneStranded(states, actions, |actions|) {
      forall i | 0 <= i < |states|
        ensures BookOk(states[i].book)
      {
        RunAgrees(ringSize, states, actions, i);
      }
    } else {
      var j :| 0 <= j < |actions| && !LeavesWaiters(states[j], actions[j]);
      if BookOk(states[j].book) {
        RunInvariant(ringSize, states, actions, j);
        assert WNext(states[j], actions[j], states[j + 1]);
        AgreementKept(states[j], actions[j], states[j + 1]);
      }
    }
  }

  /** The j-th TRB of ring `k` interrupts and has not been acknowledged. */
  ghost predicate IsOutstanding(w: World, k: Key, j: nat) {
    k in w.sys && k in w.book.lines && w.sys[k].acked <= j < |w.sys[k].pushed| && Interrupting(w.sys[k].pushed[j])
  }

  /**
    In every state of every run, whatever rings are replaced: an outstanding interrupting TRB has the channel
    that was made for it, unanswered, as the listener at its address, and every answer given was about the
    channel's own TRB.
   */
  lemma OutstandingIsFiled(ringSize: nat, states: seq<World>, actions: seq<Action>, i: nat)
    requires ringSize >= 2 && IsRun(ringSize, states, actions) && i <= |actions|
    ensures var w := states[i];
            && w.book.ringSize >= 2
            && (forall k, j :: IsOutstanding(w, k, j) ==> Waits(w.book, k, j) && Filed(w.book, k, j))
            && (forall c :: c in w.book.replies ==> ReplyOk(w.book, c))
  {
    RunInvariant(ringSize, states, actions, i);
    var w := states[i];
    forall k, j | IsOutstanding(w, k, j)
      ensures Waits(w.book, k, j) && Filed(w.book, k, j)
    {
      assert RingKept(w, k);
      assert Waits(w.book, k, j);
    }
  }

  /** The addresses of the interrupting TRBs that have not been acknowledged, over all rings. */
  ghost predicate IsOutstandingAddress(w: World, a: nat)
    requires w.book.ringSize >= 2
  {
    exists k, j :: IsOutstanding(w, k, j) && AddrOf(w.book, k, j) == a
  }

  /**
    While no ring is replaced under a waiting request the listener keys are exactly the outstanding addresses,
    and every channel ever handed out either still waits at its own TRB's address or was answered with an
    event for that TRB.
   */
  lemma ListenersMatchOutstanding(ringSize: nat, states: seq<World>, actions: seq<Action>, i: nat)
    requires ringSize >= 2 && IsRun(ringSize, states, actions) && i <= |actions| && NoneStranded(states, actions, i)
    ensures var w := states[i];
            && w.book.ringSize >= 2
            && (forall a :: a in w.book.listener <==> IsOutstandingAddress(w, a))
            && (forall c :: 0 <= c < |w.book.issued| ==> ChannelOk(w.book, c))
  {
    RunInvariant(ringSize, states, actions, i);
    RunAgrees(ringSize, states, actions, i);
    var w := states[i];
    forall a
      ensures a in w.book.listener <==> IsOutstandingAddress(w, a)
    {
      OutstandingIff(w, a);
    }
  }

  lemma OutstandingIff(w: World, a: nat)
    requires WInv(w) && BookOk(w.book)
    ensures a in w.book.listener <==> IsOutstandingAddress(w, a)
  {
    if a in w.book.listener {
      assert HasWaiter(w.book, a);
      var k, j :| Waits(w.book, k, j) && AddrOf(w.book, k, j) == a;
      assert RingKept(w, k);
      assert IsOutstanding(w, k, j);
    }
    if IsOutstandingAddress(w, a) {
      var k, j :| IsOutstanding(w, k, j) && AddrOf(w.book, k, j) == a;
      assert RingKept(w, k);
      assert Waits(w.book, k, j);
      assert Filed(w.book, k, j);
    }
  }

  lemma FirstPushWaits(ringSize: nat, key: Key, t: Transfer, base: nat)
    requires ringSize >= 3 && Interrupting(t)
    ensures var w := Made(EmptyWorld(ringSize), key, base);
      && WInv(w) && HostOk(HostOf(w))
      && var w' := AfterPush(w, key, t);
      WInv(w') && w'.book.ringSize == ringSize && Waits(w'.book, key, 0) && AddrOf(w'.book, key, 0) == base
  {
    var w := Made(EmptyWorld(ringSize), key, base);
    WNextKeepsInv(EmptyWorld(ringSize), InitRing(key, base), w);
    HostIsOk(w);
    WNextKeepsInv(w, PushTrb(key, t), AfterPush(w, key, t));
    PushAgrees(w, key, t);
  }

  /** A run of three actions that strands a listener: a ring is made, a request is pushed, the ring is made again. */
  lemma StrandingRun(ringSize: nat, key: Key, t: Transfer, base: nat, base': nat)
    returns (states: seq<World>, actions: seq<Action>)
    requires ringSize >= 3 && Interrupting(t)
    ensures |actions| == 3 && IsRun(ringSize, states, actions)
    ensures var w := states[3];
      w.book.ringSize >= 2 && base in w.book.listener && !IsOutstandingAddress(w, base)
  {
    var w1 := Made(EmptyWorld(ringSize), key, base);
    FirstPushWaits(ringSize, key, t, base);
    var w2 := AfterPush(w1, key, t);
    InitLosesWaiter(w2.book, key, base', 0);
    states := [EmptyWorld(ringSize), w1, w2, Made(w2, key, base')];
    actions := [InitRing(key, base), PushTrb(key, t), InitRing(key, base')];
  }

  /**
    A report answers the channel made for the reported TRB, which had no answer before, with that
    very event; every other channel keeps its answer, or its lack of one.  No other action answers.
   */
  lemma AnsweredOnceByItsOwnEvent(w: World, a: Action, w': World)
    requires WInv(w) && WNext(w, a, w')
    ensures a.Report? ==>
              && a.key in w.book.lines && a.number < |w.book.lines[a.key].channels|
              && var c := w.book.lines[a.key].channels[a.number];
              && c.Some? && c.value !in w.book.replies
              && var event := TransferEvent(a.key, AddrOf(w.book, a.key, a.number), a.code);
              && c.value in w'.book.replies && Tells(w'.book.replies[c.value], event)
              && w'.book.replies == w.book.replies[c.value := w'.book.replies[c.value]]
    ensures !a.Report? ==> w'.book.replies == w.book.replies
  {
    HostIsOk(w);
    match a
    case InitRing(key, base) =>
    case PushTrb(key, t) =>
    case Look(key) =>
    case Report(key, e, code) =>
      EventPointsIntoRing(w, key, e, code);
      ReportAgrees(w, key, e, code);
      assert Filed(w.book, key, e);
  }
}
