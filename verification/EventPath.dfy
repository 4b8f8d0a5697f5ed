/**
  From the controller's transfer events to the requests that wait for them, in one machine: the controller
  writes an event to the event ring, the interrupt handler drains it into a channel, and the task that reads
  the channel answers the listener at the reported address.

  `Listeners` lets a report take effect at once.  Here any number of events are under way in the ring and in
  the channel while further TRBs are pushed, fetched and completed.
 */
module EventPath {
  import opened Common
  import opened TransferRings
  import opened Listeners
  import A = AsyncRuntime
  import E = EventRing
  import R = TrbRing
  import Runs = AsyncRuns

  /** The channel that carries transfer events. */
  const EVENTS: A.Channel := 0

  /** An event the controller has raised; `number` and `channel` record which TRB it is about and who waits for it. */
  datatype Raised = Raised(event: TransferEvent, number: nat, channel: nat)

  /**
    An event on the ring and a message in the channel stand for the raised event of that number.  `upTo` says
    how far the controller has come in each ring, and `inHand` that the task has received an event and has
    yet to handle it.
   */
  datatype Path = Path(
    world: World,
    ring: E.System,
    runtime: A.State,
    raised: seq<Raised>,
    upTo: map<Key, nat>,
    handled: nat,
    inHand: bool)

  datatype Step =
    | Drive(action: Action)
    | Raise(key: Key, number: nat, code: Code)
    | RaiseOther(event: E.Event)
    | Take(agent: A.Agent)
    | ReportPointer
    | Run(step: A.Step)
    | Handle

  // ---------------------------------------------------------------- the invariant

  ghost function Numbers(n: nat): seq<nat> {
    seq(n, i requires 0 <= i < n => i)
  }

  ghost function Transfers(n: nat): seq<E.Event> {
    seq(n, i requires 0 <= i < n => E.Transfer(i))
  }

  /** Ring and channel carry the raised events in the order of their numbers. */
  ghost predicate Numbered(ring: E.System, runtime: A.State, n: nat, handled: nat, inHand: bool) {
    && E.Inv(ring) && A.Inv(runtime) && EVENTS in runtime.chans
    && E.Select(ring.written, E.ForTransfers) == Transfers(n)
    && runtime.chans[EVENTS].sent == Numbers(|ring.mail.transfers|)
    && |runtime.chans[EVENTS].received| == handled + if inHand then 1 else 0
  }

  /** A raised event that is still under way: its TRB is outstanding, and it names its address and its channel. */
  ghost predicate InFlight(w: World, upTo: map<Key, nat>, r: Raised) {
    var k, e := r.event.key, r.number;
    && Waits(w.book, k, e) && k in w.sys && k in upTo
    && e < upTo[k] && e < |w.sys[k].fetchedAt|
    && w.book.lines[k].channels[e] == Some(r.channel)
    && r.event == EventOf(w, k, e, r.event.code)
  }

  ghost predicate UnderWay(raised: seq<Raised>, handled: nat, k: Key, j: nat) {
    exists i :: handled <= i < |raised| && raised[i].event.key == k && raised[i].number == j
  }

  /** Ring by ring, the events under way are the outstanding TRBs that the controller has come past, in order. */
  ghost predicate Flights(w: World, raised: seq<Raised>, handled: nat, upTo: map<Key, nat>) {
    && handled <= |raised|
    && w.sys.Keys == w.book.lines.Keys == upTo.Keys
    && (forall k :: k in upTo ==> upTo[k] <= |w.book.lines[k].channels|)
    && (forall i {:trigger raised[i]} :: handled <= i < |raised| ==> InFlight(w, upTo, raised[i]))
    && (forall i, j :: handled <= i < j < |raised| && raised[i].event.key == raised[j].event.key ==>
          raised[i].number < raised[j].number)
    && (forall k, j {:trigger UnderWay(raised, handled, k, j)} ::
          Waits(w.book, k, j) && j < upTo[k] ==> UnderWay(raised, handled, k, j))
  }

  /** The answers given are those to the handled events, each to the channel of its TRB. */
  ghost predicate Answers(replies: map<nat, Reply>, raised: seq<Raised>, handled: nat) {
    && handled <= |raised|
    && (forall i :: 0 <= i < handled ==>
          raised[i].channel in replies && Tells(replies[raised[i].channel], raised[i].event))
    && (forall c :: c in replies ==> exists i :: 0 <= i < handled && raised[i].channel == c)
    && (forall i, j :: 0 <= i < j < |raised| ==> raised[i].channel != raised[j].channel)
  }

  ghost predicate PathInv(p: Path) {
    && WInv(p.world)
    && Numbered(p.ring, p.runtime, |p.raised|, p.handled, p.inHand)
    && Flights(p.world, p.raised, p.handled, p.upTo)
    && Answers(p.world.book.replies, p.raised, p.handled)
  }

  // ---------------------------------------------------------------- what the handler finds

  lemma {:induction false} SelectPrefix(es: seq<E.Event>, k: nat, l: E.Listener)
    requires k <= |es|
    ensures |E.Select(es[..k], l)| <= |E.Select(es, l)|
    ensures E.Select(es[..k], l) == E.Select(es, l)[..|E.Select(es[..k], l)|]
    decreases |es|
  {
    if k == |es| {
      assert es[..k] == es;
    } else {
      assert es[..|es| - 1][..k] == es[..k];
      SelectPrefix(es[..|es| - 1], k, l);
    }
  }

  /** What was delivered to the channel are the first raised events, and what was received the first of these. */
  lemma InTurn(ring: E.System, runtime: A.State, n: nat, handled: nat, inHand: bool)
    requires Numbered(ring, runtime, n, handled, inHand)
    ensures |ring.mail.transfers| <= n && ring.mail.transfers == Transfers(|ring.mail.transfers|)
    ensures runtime.chans[EVENTS].received == Numbers(|runtime.chans[EVENTS].received|)
    ensures |runtime.chans[EVENTS].received| + |runtime.chans[EVENTS].queue| == |ring.mail.transfers|
  {
    SelectPrefix(ring.written, ring.read, E.ForTransfers);
    var ch := runtime.chans[EVENTS];
    assert A.IsFifo(ch);
    assert forall i :: 0 <= i < |ch.received| ==> ch.received[i] == ch.sent[i];
  }

  /** The event in hand is the first one that was not handled. */
  lemma InHandIsNext(p: Path)
    requires PathInv(p) && p.inHand
    ensures p.handled < |p.raised| && var received := p.runtime.chans[EVENTS].received;
      received != [] && received[|received| - 1] == p.handled
  {
    InTurn(p.ring, p.runtime, |p.raised|, p.handled, p.inHand);
  }

  /** That event is about the first outstanding TRB of its ring, so handling it is a report as `Listeners` has it. */
  lemma HandlingIsReport(p: Path)
    requires PathInv(p) && p.inHand && p.handled < |p.raised|
    ensures var r := p.raised[p.handled];
      && ReportsNext(p.world, r.event.key, r.number)
      && r.event == EventOf(p.world, r.event.key, r.number, r.event.code)
      && PointsIntoRing(HostOf(p.world).rings[r.event.key], r.event.trbPointer)
      && p.world.book.lines[r.event.key].channels[r.number] == Some(r.channel)
  {
    var r := p.raised[p.handled];
    var k, e := r.event.key, r.number;
    assert InFlight(p.world, p.upTo, r);
    forall j | p.world.book.lines[k].acked <= j < e
      ensures !Waits(p.world.book, k, j)
    {
      assert !UnderWay(p.raised, p.handled, k, j);
    }
    EventPointsIntoRing(p.world, k, e, r.event.code);
  }

  // ---------------------------------------------------------------- steps

  /** The next TRB of ring `k` to raise an event: fetched, interrupting, and the first since the last one raised. */
  ghost predicate CanRaise(p: Path, k: Key, e: nat) {
    && Waits(p.world.book, k, e) && k in p.world.sys && e < |p.world.sys[k].fetchedAt|
    && k in p.upTo && p.upTo[k] <= e
    && forall j :: p.upTo[k] <= j < e ==> !Waits(p.world.book, k, j)
  }

  ghost predicate NoneUnderWay(raised: seq<Raised>, handled: nat, key: Key) {
    forall i :: handled <= i < |raised| ==> raised[i].event.key != key
  }

  /** The controller raises the event of that TRB by writing it to the event ring. */
  ghost predicate RaiseStep(p: Path, k: Key, e: nat, code: Code, p': Path) {
    && CanRaise(p, k, e)
    && E.Next(p.ring, E.Write(E.Transfer(|p.raised|)), p'.ring)
    && var r := Raised(EventOf(p.world, k, e, code), e, p.world.book.lines[k].channels[e].value);
    && p' == p.(ring := p'.ring, raised := p.raised + [r], upTo := p.upTo[k := e + 1])
  }

  /** The interrupt handler takes one event from the ring and sends it into the channel if it is a transfer event. */
  ghost predicate TakeStep(ring: E.System, runtime: A.State, agent: A.Agent, ring': E.System, runtime': A.State)
    requires A.WellFormed(runtime)
  {
    && E.Next(ring, E.Take, ring')
    && var before, after := ring.mail.transfers, ring'.mail.transfers;
    if |after| > |before|
    then A.Next(runtime, A.SendPush(agent, EVENTS, after[|before|].id), runtime')
    else runtime' == runtime
  }

  /** Nobody else sends into the channel, and one task receives from it, one event at a time. */
  ghost predicate RunStep(runtime: A.State, inHand: bool, s: A.Step, runtime': A.State, inHand': bool)
    requires A.WellFormed(runtime)
  {
    && !(s.SendPush? && s.channel == EVENTS)
    && !(inHand && A.PopsFrom(runtime, s, EVENTS))
    && A.Next(runtime, s, runtime')
    && inHand' == (inHand || A.PopsFrom(runtime, s, EVENTS))
  }

  /** The task handles the event that it received last. */
  ghost predicate HandleStep(p: Path, p': Path)
    requires PathInv(p) && p.inHand
  {
    InHandIsNext(p);
    HandlingIsReport(p);
    var received := p.runtime.chans[EVENTS].received;
    var r := p.raised[received[|received| - 1]];
    p' == p.(world := AfterEvent(p.world, r.event, r.number), handled := p.handled + 1, inHand := false)
  }

  ghost predicate Next(p: Path, step: Step, p': Path)
    requires PathInv(p)
  {
    match step
    case Drive(a) =>
      // a ring is not replaced while an event of it is under way
      && !a.Report? && WNext(p.world, a, p'.world)
      && (a.InitRing? ==> NoneUnderWay(p.raised, p.handled, a.key))
      && p' == p.(world := p'.world, upTo := if a.InitRing? then p.upTo[a.key := 0] else p.upTo)
    case Raise(k, e, code) => RaiseStep(p, k, e, code, p')
    case RaiseOther(event) =>
      !event.Transfer? && E.Next(p.ring, E.Write(event), p'.ring) && p' == p.(ring := p'.ring)
    case Take(agent) =>
      TakeStep(p.ring, p.runtime, agent, p'.ring, p'.runtime) && p' == p.(ring := p'.ring, runtime := p'.runtime)
    case ReportPointer =>
      E.Next(p.ring, E.Report, p'.ring) && p' == p.(ring := p'.ring)
    case Run(s) =>
      && RunStep(p.runtime, p.inHand, s, p'.runtime, p'.inHand)
      && p' == p.(runtime := p'.runtime, inHand := p'.inHand)
    case Handle => p.inHand && HandleStep(p, p')
  }

  // ---------------------------------------------------------------- what every step keeps: order

  lemma OneMoreNumber(n: nat)
    ensures Numbers(n) + [n] == Numbers(n + 1) && Transfers(n) + [E.Transfer(n)] == Transfers(n + 1)
  {
  }

  lemma WrittenNumbered(ring: E.System, event: E.Event, ring': E.System, runtime: A.State,
                        n: nat, handled: nat, inHand: bool)
    requires Numbered(ring, runtime, n, handled, inHand) && E.Next(ring, E.Write(event), ring')
    requires event.Transfer? ==> event == E.Transfer(n)
    ensures Numbered(ring', runtime, if event.Transfer? then n + 1 else n, handled, inHand)
  {
    E.NextKeepsInv(ring, E.Write(event), ring');
    assert ring'.written[..|ring.written|] == ring.written;
    OneMoreNumber(n);
  }

  /** A take adds the event whose turn it is to what was delivered, or nothing. */
  lemma TakenInTurn(ring: E.System, ring': E.System, n: nat)
    requires E.Inv(ring) && E.Next(ring, E.Take, ring') && E.Select(ring.written, E.ForTransfers) == Transfers(n)
    ensures E.Inv(ring') && E.Select(ring'.written, E.ForTransfers) == Transfers(n)
    ensures var before, after := ring.mail.transfers, ring'.mail.transfers;
      after == before || after == before + [E.Transfer(|before|)]
  {
    E.NextKeepsInv(ring, E.Take, ring');
    SelectPrefix(ring'.written, ring'.read, E.ForTransfers);
  }

  lemma TakenNumbered(ring: E.System, runtime: A.State, agent: A.Agent, ring': E.System, runtime': A.State,
                      n: nat, handled: nat, inHand: bool)
    requires Numbered(ring, runtime, n, handled, inHand) && TakeStep(ring, runtime, agent, ring', runtime')
    ensures Numbered(ring', runtime', n, handled, inHand)
  {
    TakenInTurn(ring, ring', n);
    var before, after := ring.mail.transfers, ring'.mail.transfers;
    if after != before {
      var step := A.SendPush(agent, EVENTS, |before|);
      A.NextKeepsInv(runtime, step, runtime');
      A.SentByPush(runtime, step, runtime', EVENTS);
      A.ReceivedByPop(runtime, step, runtime', EVENTS);
      OneMoreNumber(|before|);
    }
  }

  lemma RunNumbered(ring: E.System, runtime: A.State, s: A.Step, runtime': A.State,
                    n: nat, handled: nat, inHand: bool, inHand': bool)
    requires Numbered(ring, runtime, n, handled, inHand) && RunStep(runtime, inHand, s, runtime', inHand')
    ensures Numbered(ring, runtime', n, handled, inHand')
  {
    A.NextKeepsInv(runtime, s, runtime');
    A.SentByPush(runtime, s, runtime', EVENTS);
    A.ReceivedByPop(runtime, s, runtime', EVENTS);
  }

  // ---------------------------------------------------------------- what every step keeps: events under way

  /** The ring is the same one, with perhaps more pushed and more fetched. */
  ghost predicate Continues(w: World, w': World, k: Key) {
    && k in w.sys && k in w'.sys && k in w.book.lines && k in w'.book.lines
    && w'.book.lines[k].base == w.book.lines[k].base && w'.book.lines[k].acked == w.book.lines[k].acked
    && w.book.lines[k].channels <= w'.book.lines[k].channels
    && w.sys[k].fetchedAt <= w'.sys[k].fetchedAt
  }

  lemma FlightContinues(w: World, w': World, upTo: map<Key, nat>, upTo': map<Key, nat>, r: Raised)
    requires InFlight(w, upTo, r) && Continues(w, w', r.event.key)
    requires r.event.key in upTo' && upTo'[r.event.key] == upTo[r.event.key]
    ensures InFlight(w', upTo', r)
  {
  }

  /** All rings but perhaps `key` continue; that one is new and none of its events is under way. */
  lemma FlightsContinue(w: World, w': World, raised: seq<Raised>, handled: nat,
                        upTo: map<Key, nat>, upTo': map<Key, nat>, key: Key)
    requires Flights(w, raised, handled, upTo)
    requires w'.sys.Keys == w'.book.lines.Keys == upTo'.Keys
    requires forall k :: k in upTo' && k != key ==> Continues(w, w', k) && upTo'[k] == upTo[k]
    requires forall k :: k in upTo && k != key ==> k in upTo'
    requires (key in upTo && key in upTo' && Continues(w, w', key) && upTo'[key] == upTo[key])
          || (key in upTo' && upTo'[key] == 0 && NoneUnderWay(raised, handled, key))
    ensures Flights(w', raised, handled, upTo')
  {
    forall i | handled <= i < |raised|
      ensures InFlight(w', upTo', raised[i])
    {
      assert InFlight(w, upTo, raised[i]);
      FlightContinues(w, w', upTo, upTo', raised[i]);
    }
    forall k, j | Waits(w'.book, k, j) && j < upTo'[k]
      ensures UnderWay(raised, handled, k, j)
    {
      assert Waits(w.book, k, j);
    }
  }

  lemma PushContinues(w: World, key: Key, t: Transfer, k: Key)
    requires WInv(w) && HostOk(HostOf(w)) && key in w.sys && k in w.sys
    ensures Continues(w, AfterPush(w, key, t), k)
  {
  }

  lemma LookContinues(w: World, key: Key, k: Key)
    requires WInv(w) && key in w.sys && k in w.sys && w.sys[key].index < |w.sys[key].ring.data|
    ensures Continues(w, w.(sys := w.sys[key := R.AfterFetch(w.sys[key])]), k)
  {
  }

  lemma InitFlights(w: World, key: Key, base: nat, raised: seq<Raised>, handled: nat, upTo: map<Key, nat>)
    requires w.book.ringSize >= 2 && Flights(w, raised, handled, upTo) && NoneUnderWay(raised, handled, key)
    ensures Flights(Made(w, key, base), raised, handled, upTo[key := 0])
  {
    FlightsContinue(w, Made(w, key, base), raised, handled, upTo, upTo[key := 0], key);
  }

  lemma PushFlights(w: World, key: Key, t: Transfer, raised: seq<Raised>, handled: nat, upTo: map<Key, nat>)
    requires WInv(w) && HostOk(HostOf(w)) && key in w.sys && Flights(w, raised, handled, upTo)
    ensures Flights(AfterPush(w, key, t), raised, handled, upTo)
  {
    var w' := AfterPush(w, key, t);
    forall k | k in w.sys ensures Continues(w, w', k) { PushContinues(w, key, t, k); }
    FlightsContinue(w, w', raised, handled, upTo, upTo, key);
  }

  lemma LookFlights(w: World, key: Key, raised: seq<Raised>, handled: nat, upTo: map<Key, nat>)
    requires WInv(w) && key in w.sys && w.sys[key].index < |w.sys[key].ring.data| && Flights(w, raised, handled, upTo)
    ensures Flights(w.(sys := w.sys[key := R.AfterFetch(w.sys[key])]), raised, handled, upTo)
  {
    var w' := w.(sys := w.sys[key := R.AfterFetch(w.sys[key])]);
    forall k | k in w.sys ensures Continues(w, w', k) { LookContinues(w, key, k); }
    FlightsContinue(w, w', raised, handled, upTo, upTo, key);
  }

  lemma DriveFlights(w: World, a: Action, w': World, raised: seq<Raised>, handled: nat, upTo: map<Key, nat>)
    requires WInv(w) && WNext(w, a, w') && !a.Report? && Flights(w, raised, handled, upTo)
    requires a.InitRing? ==> NoneUnderWay(raised, handled, a.key)
    ensures Flights(w', raised, handled, if a.InitRing? then upTo[a.key := 0] else upTo)
    ensures w'.book.replies == w.book.replies
  {
    HostIsOk(w);
    match a
    case InitRing(key, base) => InitFlights(w, key, base, raised, handled, upTo);
    case PushTrb(key, t) => PushFlights(w, key, t, raised, handled, upTo);
    case Look(key) => LookFlights(w, key, raised, handled, upTo);
  }

  lemma RaiseFlights(w: World, raised: seq<Raised>, handled: nat, upTo: map<Key, nat>, r: Raised)
    requires Flights(w, raised, handled, upTo)
    requires r.event.key in upTo && upTo[r.event.key] <= r.number
    requires InFlight(w, upTo[r.event.key := r.number + 1], r)
    requires forall j :: upTo[r.event.key] <= j < r.number ==> !Waits(w.book, r.event.key, j)
    ensures Flights(w, raised + [r], handled, upTo[r.event.key := r.number + 1])
  {
    var raised', upTo' := raised + [r], upTo[r.event.key := r.number + 1];
    forall i | handled <= i < |raised'|
      ensures InFlight(w, upTo', raised'[i])
    {
      if i < |raised| {
        assert InFlight(w, upTo, raised[i]);
      }
    }
    forall i, j | handled <= i < j < |raised'| && raised'[i].event.key == raised'[j].event.key
      ensures raised'[i].number < raised'[j].number
    {
      assert InFlight(w, upTo, raised[i]);
    }
    forall k, j | Waits(w.book, k, j) && j < upTo'[k]
      ensures UnderWay(raised', handled, k, j)
    {
      RaiseCovers(w, raised, handled, upTo, r, k, j);
    }
  }

  lemma RaiseCovers(w: World, raised: seq<Raised>, handled: nat, upTo: map<Key, nat>, r: Raised, k: Key, j: nat)
    requires Flights(w, raised, handled, upTo) && r.event.key in upTo && k in upTo
    requires forall j :: upTo[r.event.key] <= j < r.number ==> !Waits(w.book, r.event.key, j)
    requires Waits(w.book, k, j) && j < upTo[r.event.key := r.number + 1][k]
    ensures UnderWay(raised + [r], handled, k, j)
  {
    if k == r.event.key && j == r.number {
      assert (raised + [r])[|raised|] == r;
    } else {
      assert UnderWay(raised, handled, k, j);
      var i :| handled <= i < |raised| && raised[i].event.key == k && raised[i].number == j;
      assert (raised + [r])[i] == raised[i];
    }
  }

  /** What handling the event `r` changes: its TRB is acknowledged and its channel answered. */
  ghost predicate Acknowledges(w: World, r: Raised, w': World) {
    var k := r.event.key;
    && k in w.sys && k in w.book.lines && w'.sys.Keys == w.sys.Keys
    && w'.book.lines == w.book.lines[k := w.book.lines[k].(acked := r.number + 1)]
    && (forall l :: l in w.sys ==> w'.sys[l].fetchedAt == w.sys[l].fetchedAt)
    && r.channel in w'.book.replies && Tells(w'.book.replies[r.channel], r.event)
    && w'.book.replies == w.book.replies[r.channel := w'.book.replies[r.channel]]
  }

  /** The acknowledged TRB goes; all that is under way behind it stays. */
  lemma HandleFlights(w: World, raised: seq<Raised>, handled: nat, upTo: map<Key, nat>, w': World)
    requires Flights(w, raised, handled, upTo) && handled < |raised|
    requires Acknowledges(w, raised[handled], w')
    ensures Flights(w', raised, handled + 1, upTo)
  {
    var r := raised[handled];
    forall i | handled + 1 <= i < |raised|
      ensures InFlight(w', upTo, raised[i])
    {
      assert InFlight(w, upTo, raised[i]);
    }
    forall k, j | Waits(w'.book, k, j) && j < upTo[k]
      ensures UnderWay(raised, handled + 1, k, j)
    {
      assert InFlight(w, upTo, r);
      assert Waits(w.book, k, j);
      assert UnderWay(raised, handled, k, j);
      var i :| handled <= i < |raised| && raised[i].event.key == k && raised[i].number == j;
      assert i != handled;
    }
  }

  // ---------------------------------------------------------------- what every step keeps: answers

  /** A TRB that the controller has yet to come to has another channel than one whose event is under way. */
  lemma OtherChannel(w: World, upTo: map<Key, nat>, k: Key, e: nat, c: nat, r: Raised)
    requires BookSound(w.book) && Waits(w.book, k, e) && w.book.lines[k].channels[e] == Some(c)
    requires k in upTo && upTo[k] <= e && InFlight(w, upTo, r)
    ensures r.channel != c
  {
    assert Filed(w.book, k, e) && Filed(w.book, r.event.key, r.number);
    AddressesDiffer(w.book, k, e, r.event.key, r.number);
  }

  /** A newly raised event is for a channel that no event was for. */
  lemma RaiseAnswers(w: World, raised: seq<Raised>, handled: nat, upTo: map<Key, nat>, k: Key, e: nat, r: Raised)
    requires BookSound(w.book) && Answers(w.book.replies, raised, handled)
    requires forall i {:trigger raised[i]} :: handled <= i < |raised| ==> InFlight(w, upTo, raised[i])
    requires Waits(w.book, k, e) && k in upTo && upTo[k] <= e && w.book.lines[k].channels[e] == Some(r.channel)
    ensures Answers(w.book.replies, raised + [r], handled)
  {
    assert Filed(w.book, k, e);
    forall i | 0 <= i < |raised|
      ensures raised[i].channel != r.channel
    {
      if i >= handled { OtherChannel(w, upTo, k, e, r.channel, raised[i]); }
    }
    forall c | c in w.book.replies
      ensures exists i :: 0 <= i < handled && (raised + [r])[i].channel == c
    {
      var i :| 0 <= i < handled && raised[i].channel == c;
      assert (raised + [r])[i].channel == c;
    }
  }

  lemma HandleAnswers(replies: map<nat, Reply>, raised: seq<Raised>, handled: nat, replies': map<nat, Reply>)
    requires Answers(replies, raised, handled) && handled < |raised|
    requires raised[handled].channel in replies' && Tells(replies'[raised[handled].channel], raised[handled].event)
    requires replies' == replies[raised[handled].channel := replies'[raised[handled].channel]]
    ensures Answers(replies', raised, handled + 1)
  {
    forall c | c in replies'
      ensures exists i :: 0 <= i < handled + 1 && raised[i].channel == c
    {
      if c in replies {
        var i :| 0 <= i < handled && raised[i].channel == c;
      } else {
        assert raised[handled].channel == c;
      }
    }
  }

  // ---------------------------------------------------------------- every step

  /** The action of `Listeners` that a step amounts to: handling an event is the report of its TRB. */
  ghost function WorldAction(p: Path, step: Step): Option<Action> {
    match step
    case Drive(a) => Some(a)
    case Handle =>
      if p.handled < |p.raised|
      then var r := p.raised[p.handled]; Some(Report(r.event.key, r.number, r.event.code)) else None
    case _ => None
  }

  lemma HandleRefines(p: Path, p': Path)
    requires PathInv(p) && p.inHand && HandleStep(p, p')
    ensures p.handled < |p.raised|
    ensures var r := p.raised[p.handled];
      && WNext(p.world, Report(r.event.key, r.number, r.event.code), p'.world)
      && r.event == EventOf(p.world, r.event.key, r.number, r.event.code)
      && p.world.book.lines[r.event.key].channels[r.number] == Some(r.channel)
    ensures p' == p.(world := p'.world, handled := p.handled + 1, inHand := false)
  {
    InHandIsNext(p);
    HandlingIsReport(p);
  }

  /** The simple machine is refined: the world makes that step, or none. */
  lemma StepRefines(p: Path, step: Step, p': Path)
    requires PathInv(p) && Next(p, step, p')
    ensures match WorldAction(p, step)
            case Some(a) => WNext(p.world, a, p'.world)
            case None => p'.world == p.world
  {
    if step.Handle? { HandleRefines(p, p'); }
  }

  lemma ReportAcknowledges(w: World, r: Raised, w': World)
    requires WInv(w) && WNext(w, Report(r.event.key, r.number, r.event.code), w')
    requires r.event == EventOf(w, r.event.key, r.number, r.event.code)
    requires w.book.lines[r.event.key].channels[r.number] == Some(r.channel)
    ensures Acknowledges(w, r, w') && WInv(w')
  {
    var a := Report(r.event.key, r.number, r.event.code);
    WNextKeepsInv(w, a, w');
    AnsweredOnceByItsOwnEvent(w, a, w');
    EventPointsIntoRing(w, r.event.key, r.number, r.event.code);
  }

  lemma HandleAcknowledges(p: Path, p': Path)
    requires PathInv(p) && p.inHand && HandleStep(p, p')
    ensures p.handled < |p.raised| && Acknowledges(p.world, p.raised[p.handled], p'.world) && WInv(p'.world)
    ensures p' == p.(world := p'.world, handled := p.handled + 1, inHand := false)
  {
    HandleRefines(p, p');
    ReportAcknowledges(p.world, p.raised[p.handled], p'.world);
  }

  /** One event has been handled. */
  ghost predicate HandledOne(p: Path, p': Path) {
    && p.handled < |p.raised| && p.inHand
    && Acknowledges(p.world, p.raised[p.handled], p'.world)
    && p' == p.(world := p'.world, handled := p.handled + 1, inHand := false)
  }

  lemma HandledNumbered(p: Path, p': Path)
    requires HandledOne(p, p') && Numbered(p.ring, p.runtime, |p.raised|, p.handled, p.inHand)
    ensures Numbered(p'.ring, p'.runtime, |p'.raised|, p'.handled, p'.inHand)
  {
  }

  lemma HandledFlights(p: Path, p': Path)
    requires HandledOne(p, p') && Flights(p.world, p.raised, p.handled, p.upTo)
    ensures Flights(p'.world, p'.raised, p'.handled, p'.upTo)
  {
    HandleFlights(p.world, p.raised, p.handled, p.upTo, p'.world);
  }

  lemma HandledAnswers(p: Path, p': Path)
    requires HandledOne(p, p') && Answers(p.world.book.replies, p.raised, p.handled)
    ensures Answers(p'.world.book.replies, p'.raised, p'.handled)
  {
    HandleAnswers(p.world.book.replies, p.raised, p.handled, p'.world.book.replies);
  }

  lemma HandleKeepsInv(p: Path, p': Path)
    requires PathInv(p) && p.inHand && HandleStep(p, p')
    ensures PathInv(p')
  {
    HandleAcknowledges(p, p');
    HandledNumbered(p, p');
    HandledFlights(p, p');
    HandledAnswers(p, p');
  }

  lemma RaiseStepFlights(p: Path, k: Key, e: nat, code: Code, p': Path)
    requires Flights(p.world, p.raised, p.handled, p.upTo) && RaiseStep(p, k, e, code, p')
    ensures Flights(p.world, p'.raised, p.handled, p'.upTo)
  {
    var r := Raised(EventOf(p.world, k, e, code), e, p.world.book.lines[k].channels[e].value);
    assert InFlight(p.world, p.upTo[k := e + 1], r);
    RaiseFlights(p.world, p.raised, p.handled, p.upTo, r);
  }

  lemma RaiseStepAnswers(p: Path, k: Key, e: nat, code: Code, p': Path)
    requires BookSound(p.world.book) && Answers(p.world.book.replies, p.raised, p.handled)
    requires Flights(p.world, p.raised, p.handled, p.upTo) && RaiseStep(p, k, e, code, p')
    ensures Answers(p.world.book.replies, p'.raised, p.handled)
  {
    var r := Raised(EventOf(p.world, k, e, code), e, p.world.book.lines[k].channels[e].value);
    RaiseAnswers(p.world, p.raised, p.handled, p.upTo, k, e, r);
  }

  lemma RaiseKeepsInv(p: Path, k: Key, e: nat, code: Code, p': Path)
    requires PathInv(p) && RaiseStep(p, k, e, code, p')
    ensures PathInv(p')
  {
    WrittenNumbered(p.ring, E.Transfer(|p.raised|), p'.ring, p.runtime, |p.raised|, p.handled, p.inHand);
    RaiseStepFlights(p, k, e, code, p');
    RaiseStepAnswers(p, k, e, code, p');
  }

  lemma NextKeepsInv(p: Path, step: Step, p': Path)
    requires PathInv(p) && Next(p, step, p')
    ensures PathInv(p')
  {
    match step
    case Drive(a) =>
      WNextKeepsInv(p.world, a, p'.world);
      DriveFlights(p.world, a, p'.world, p.raised, p.handled, p.upTo);
    case Raise(k, e, code) => RaiseKeepsInv(p, k, e, code, p');
    case RaiseOther(event) =>
      WrittenNumbered(p.ring, event, p'.ring, p.runtime, |p.raised|, p.handled, p.inHand);
    case Take(agent) =>
      TakenNumbered(p.ring, p.runtime, agent, p'.ring, p'.runtime, |p.raised|, p.handled, p.inHand);
    case ReportPointer => E.NextKeepsInv(p.ring, E.Report, p'.ring);
    case Run(s) =>
      RunNumbered(p.ring, p.runtime, s, p'.runtime, |p.raised|, p.handled, p.inHand, p'.inHand);
    case Handle => HandleKeepsInv(p, p');
  }

  // ---------------------------------------------------------------- every run

  ghost predicate Initial(p: Path) {
    && p.world.book.ringSize >= 2 && p.world == EmptyWorld(p.world.book.ringSize)
    && |p.ring.host.data| >= 1 && p.ring == E.Start(|p.ring.host.data|)
    && Runs.Initial(p.runtime) && EVENTS in p.runtime.chans
    && p.raised == [] && p.upTo == map[] && p.handled == 0 && !p.inHand
  }

  lemma InitialInv(p: Path)
    requires Initial(p)
    ensures PathInv(p)
  {
    assert p.ring.written[..0] == [];
    Runs.StartInv(p.runtime);
  }

  /** `Next` is defined where the invariant holds, which `RunInv` shows is everywhere. */
  ghost predicate IsRun(states: seq<Path>, steps: seq<Step>) {
    && |states| == |steps| + 1 && Initial(states[0])
    && forall i {:trigger steps[i]} ::
      0 <= i < |steps| ==> PathInv(states[i]) ==> Next(states[i], steps[i], states[i + 1])
  }

  lemma {:induction false} RunInv(states: seq<Path>, steps: seq<Step>, i: nat)
    requires IsRun(states, steps) && i <= |steps|
    ensures PathInv(states[i])
    decreases i
  {
    if i == 0 {
      InitialInv(states[0]);
    } else {
      RunInv(states, steps, i - 1);
      assert Next(states[i - 1], steps[i - 1], states[i - 1 + 1]);
      NextKeepsInv(states[i - 1], steps[i - 1], states[i]);
    }
  }

  /** A handled event was about the TRB that the answered channel was made for. */
  lemma AnswersOwnTrb(b: Book, raised: seq<Raised>, handled: nat, k: nat)
    requires BookSound(b) && Answers(b.replies, raised, handled) && k < handled
    ensures raised[k].channel < |b.issued|
    ensures b.issued[raised[k].channel] == (raised[k].event.key, raised[k].event.trbPointer)
  {
    assert ReplyOk(b, raised[k].channel);
  }

  /**
    In every state of every run: the events handled are the first ones raised, in the order they were raised; the
    channels answered are exactly those the handled events were for, each answered once, with its own event, and
    made for the TRB that the event is about.
   */
  lemma EveryEventFindsItsRequest(states: seq<Path>, steps: seq<Step>, i: nat)
    requires IsRun(states, steps) && i <= |steps|
    ensures var p := states[i];
      && EVENTS in p.runtime.chans && p.handled <= |p.raised|
      && p.runtime.chans[EVENTS].received == Numbers(p.handled + if p.inHand then 1 else 0)
      && (forall k :: 0 <= k < p.handled ==>
            var c := p.raised[k].channel;
            && c in p.world.book.replies && p.world.book.replies[c].event == p.raised[k].event
            && (p.world.book.replies[c].Ok? <==>
                  p.raised[k].event.code == Success || p.raised[k].event.code == ShortPacket)
            && c < |p.world.book.issued|
            && p.world.book.issued[c] == (p.raised[k].event.key, p.raised[k].event.trbPointer))
      && (forall c :: c in p.world.book.replies ==> exists k :: 0 <= k < p.handled && p.raised[k].channel == c)
      && (forall k, l :: 0 <= k < l < |p.raised| ==> p.raised[k].channel != p.raised[l].channel)
  {
    RunInv(states, steps, i);
    var p := states[i];
    InTurn(p.ring, p.runtime, |p.raised|, p.handled, p.inHand);
    forall k | 0 <= k < p.handled
      ensures p.raised[k].channel < |p.world.book.issued|
      ensures p.world.book.issued[p.raised[k].channel] == (p.raised[k].event.key, p.raised[k].event.trbPointer)
    {
      AnswersOwnTrb(p.world.book, p.raised, p.handled, k);
    }
  }

  /** Once ring and channel are empty and no event is in hand, every event that was raised has been answered. */
  lemma DrainedMeansAnswered(states: seq<Path>, steps: seq<Step>, i: nat)
    requires IsRun(states, steps) && i <= |steps|
    requires var p := states[i];
      p.ring.read == |p.ring.written| && EVENTS in p.runtime.chans && p.runtime.chans[EVENTS].queue == [] && !p.inHand
    ensures states[i].handled == |states[i].raised|
  {
    RunInv(states, steps, i);
    var p := states[i];
    InTurn(p.ring, p.runtime, |p.raised|, p.handled, p.inHand);
    assert p.ring.written[..p.ring.read] == p.ring.written;
  }
}
