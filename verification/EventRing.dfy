/**
  The event ring: the controller produces, the driver drains it on interrupt and routes
  each event to one of three channels.  There is no link TRB; both sides wrap at the end
  of the only segment (section 4.9.4 of the xHCI specification).
 */
module EventRing {
  import opened Common
  import opened TrbRing

  /** `Unsupported` stands for the event types whose handling is not written and panics. */
  datatype Event = Transfer(id: nat) | Command(id: nat) | PortChange(id: nat) | Unsupported(id: nat)

  type EventTrb = Trb<Event>

  datatype Consumer = Consumer(data: seq<EventTrb>, cycleState: bool, deque: nat)

  // ---------------------------------------------------------------- the tape the controller writes

  /** The j-th event of the tape is still in its slot. */
  ghost predicate HeldAt(data: seq<EventTrb>, written: seq<Event>, j: nat)
    requires |data| >= 1 && j < |written|
  {
    data[Slot(|data|, j)] == Trb(Work(written[j]), Phase(|data|, j))
  }

  ghost predicate HoldsTape(data: seq<EventTrb>, written: seq<Event>) {
    && |data| >= 1
    && (forall j: nat {:trigger HeldAt(data, written, j)} :: j < |written| <= j + |data| ==> HeldAt(data, written, j))
    && (forall i :: |written| <= i < |data| ==> data[i] == Trb(Blank, false))
  }

  /** The driver has read the first `read` events, and none it has yet to read was overwritten. */
  ghost predicate InStep(c: Consumer, written: seq<Event>, read: nat) {
    && HoldsTape(c.data, written)
    && read <= |written| <= read + |c.data|
    && c.deque == Slot(|c.data|, read)
    && c.cycleState == Phase(|c.data|, read)
  }

  /** The slot at the dequeue index holds the next event, or one the driver will not take. */
  lemma NextEvent(c: Consumer, written: seq<Event>, read: nat)
    requires InStep(c, written, read)
    ensures read < |written| ==> c.data[c.deque] == Trb(Work(written[read]), c.cycleState)
    ensures read == |written| ==> c.data[c.deque].cycle != c.cycleState
  {
    var m := |c.data|;
    if read < |written| {
      assert HeldAt(c.data, written, read);
    } else if read >= m {
      SlotAhead(m, read - m, m);
      assert HeldAt(c.data, written, read - m);
    } else {
      FreshSlots(m, read);
    }
  }

  /** One `pop`: nothing when the slot carries the other cycle bit, else its body, and the index moves on. */
  function Popped(c: Consumer): (Consumer, Option<Body<Event>>)
    requires c.deque < |c.data|
  {
    var trb := c.data[c.deque];
    if trb.cycle != c.cycleState then (c, None)
    else
      var wrap := c.deque + 1 == |c.data|;
      (c.(deque := if wrap then 0 else c.deque + 1, cycleState := c.cycleState != wrap), Some(trb.body))
  }

  /** A pop yields the next unread event of the tape exactly once, and nothing when all were read. */
  lemma PopTakesNext(c: Consumer, written: seq<Event>, read: nat)
    requires InStep(c, written, read)
    ensures c.deque < |c.data|
    ensures read < |written| ==> Popped(c).1 == Some(Work(written[read])) && InStep(Popped(c).0, written, read + 1)
    ensures read == |written| ==> Popped(c) == (c, None)
  {
    NextEvent(c, written, read);
  }

  // ---------------------------------------------------------------- the driver

  /** What has been sent to the three listeners. */
  datatype Mail = Mail(transfers: seq<Event>, commands: seq<Event>, ports: seq<Event>)

  function Routed(m: Mail, e: Event): Mail {
    match e
    case Transfer(_) => m.(transfers := m.transfers + [e])
    case Command(_) => m.(commands := m.commands + [e])
    case PortChange(_) => m.(ports := m.ports + [e])
    case Unsupported(_) => m
  }

  datatype Listener = ForTransfers | ForCommands | ForPorts

  predicate Wants(l: Listener, e: Event) {
    match l
    case ForTransfers => e.Transfer?
    case ForCommands => e.Command?
    case ForPorts => e.PortChange?
  }

  /** The events that a listener wants, in order. */
  ghost function Select(es: seq<Event>, l: Listener): seq<Event> {
    if es == [] then []
    else Select(es[..|es| - 1], l) + if Wants(l, es[|es| - 1]) then [es[|es| - 1]] else []
  }

  /** Every event of `es` was delivered once, to the listener of its kind, in order. */
  ghost predicate Delivered(m: Mail, es: seq<Event>) {
    && m.transfers == Select(es, ForTransfers)
    && m.commands == Select(es, ForCommands)
    && m.ports == Select(es, ForPorts)
  }

  lemma RoutedDelivers(m: Mail, es: seq<Event>, e: Event)
    requires Delivered(m, es)
    ensures Delivered(Routed(m, e), es + [e])
  {
    assert (es + [e])[..|es|] == es;
  }

  lemma {:induction false} SelectMembers(es: seq<Event>, l: Listener, e: Event)
    ensures e in Select(es, l) <==> e in es && Wants(l, e)
    decreases |es|
  {
    if es != [] {
      SelectMembers(es[..|es| - 1], l, e);
      assert es == es[..|es| - 1] + [es[|es| - 1]];
    }
  }

  /** Each listener has been sent the events of its own kind, all of them and no others. */
  lemma RightMailbox(m: Mail, es: seq<Event>, e: Event)
    requires Delivered(m, es)
    ensures e in m.transfers <==> e in es && e.Transfer?
    ensures e in m.commands <==> e in es && e.Command?
    ensures e in m.ports <==> e in es && e.PortChange?
  {
    SelectMembers(es, ForTransfers, e);
    SelectMembers(es, ForCommands, e);
    SelectMembers(es, ForPorts, e);
  }

  /** After the event at `read` is routed, or skipped because no listener takes it, one more is delivered. */
  lemma OneMoreDelivered(m: Mail, written: seq<Event>, read: nat)
    requires read < |written| && Delivered(m, written[..read])
    ensures Delivered(Routed(m, written[read]), written[..read + 1])
  {
    assert written[..read + 1] == written[..read] + [written[read]];
    RoutedDelivers(m, written[..read], written[read]);
  }

  class Events {
    var data: array<EventTrb>
    var cycleState: bool
    var deque: nat
    var mail: Mail
    const base: nat

    ghost function State(): Consumer
      reads this, data
    {
      Consumer(data[..], cycleState, deque)
    }

    constructor (size: nat, base: nat)
      requires size >= 1
      ensures fresh(data) && data.Length == size && this.base == base
      ensures CaughtUp([], 0)
    {
      data := new EventTrb[size](_ => Trb(Blank, false));
      cycleState := true;
      deque := 0;
      this.base := base;
      mail := Mail([], [], []);
    }

    method Pop() returns (body: Option<Body<Event>>)
      requires deque < data.Length
      modifies this`cycleState, this`deque
      ensures (State(), body) == Popped(old(State()))
    {
      var trb := data[deque];
      if trb.cycle != cycleState {
        return None;
      }
      deque := deque + 1;
      if deque == data.Length {
        deque := 0;
        cycleState := !cycleState;
      }
      body := Some(trb.body);
    }

    /** Exactly the first `read` events of the tape have been taken and delivered. */
    ghost predicate CaughtUp(written: seq<Event>, read: nat)
      reads this, data
    {
      InStep(State(), written, read) && Delivered(mail, written[..read])
    }

    /** One turn of the drain loop; `ok` is false when an unsupported event stopped the driver. */
    method DrainOne(ghost written: seq<Event>, ghost read: nat) returns (more: bool, ok: bool)
      requires CaughtUp(written, read)
      modifies this`cycleState, this`deque, this`mail
      ensures more <==> read < |written|
      ensures CaughtUp(written, if more then read + 1 else read)
      ensures more ==> (ok <==> !written[read].Unsupported?)
    {
      PopTakesNext(State(), written, read);
      var body := Pop();
      more, ok := body.Some?, true;
      if more {
        var e := body.value.work;
        OneMoreDelivered(mail, written, read);
        if e.Unsupported? {
          ok := false;
        } else {
          mail := Routed(mail, e);
        }
      }
    }

    /**
      Drains the ring.  The result is the dequeue pointer reported to the controller, or None
      when an unsupported event stopped the driver after everything before it was delivered.
     */
    method OnXhcInterrupt(ghost written: seq<Event>, ghost read: nat) returns (erdp: Option<nat>, ghost read': nat)
      requires CaughtUp(written, read)
      modifies this`cycleState, this`deque, this`mail
      ensures CaughtUp(written, read') && read <= read' <= |written|
      ensures erdp.Some? <==> forall i :: read <= i < |written| ==> !written[i].Unsupported?
      ensures erdp.Some? ==> read' == |written| && erdp.value == base + TRB_BYTES * Slot(data.Length, |written|)
      ensures erdp.None? ==> read' > read && written[read' - 1].Unsupported?
      ensures forall i :: read <= i < (if erdp.Some? then read' else read' - 1) ==> !written[i].Unsupported?
    {
      read' := read;
      while true
        invariant read <= read' <= |written| && CaughtUp(written, read')
        invariant forall i :: read <= i < read' ==> !written[i].Unsupported?
        decreases |written| - read'
      {
        var more, ok := DrainOne(written, read');
        if !more {
          break;
        }
        read' := read' + 1;
        if !ok {
          return None, read';
        }
      }
      erdp := Some(base + TRB_BYTES * deque);
    }
  }

  // ---------------------------------------------------------------- driver and controller together

  /** The controller may write while the driver drains; it only respects the pointer last reported. */
  datatype System = System(
    host: Consumer,
    mail: Mail,
    erdp: nat,
    written: seq<Event>,
    read: nat,
    reported: nat,
    stopped: bool)

  datatype Step = Write(event: Event) | Take | Report

  ghost function Start(size: nat): System
    requires size >= 1
  {
    System.System(Consumer(seq(size, _ => Trb(Blank, false)), true, 0), Mail([], [], []), 0, [], 0, 0, false)
  }

  /** One turn of the drain loop: a pop and the routing of what it yields. */
  ghost function AfterTake(s: System): System
    requires s.host.deque < |s.host.data|
  {
    var (host, body) := Popped(s.host);
    match body
    case None => s
    case Some(Work(e)) =>
      s.(host := host, mail := Routed(s.mail, e), read := s.read + 1, stopped := e.Unsupported?)
    case Some(_) => s.(host := host, stopped := true)  // not an event TRB: the driver panics
  }

  ghost predicate Next(s: System, step: Step, s': System) {
    match step
    case Write(e) =>
      // cycle-bit-correct, and never past the dequeue pointer the driver reported
      && |s.host.data| >= 1
      && |s.written| < s.reported + |s.host.data|
      && var slot := Slot(|s.host.data|, |s.written|);
      && s' == s.(host := s.host.(data := s.host.data[slot := Trb(Work(e), Phase(|s.host.data|, |s.written|))]),
                  written := s.written + [e])
    case Take =>
      !s.stopped && s.host.deque < |s.host.data| && s' == AfterTake(s)
    case Report =>
      !s.stopped && s' == s.(erdp := s.host.deque, reported := s.read)
  }

  ghost predicate Inv(s: System) {
    && InStep(s.host, s.written, s.read)
    && s.reported <= s.read && |s.written| <= s.reported + |s.host.data|
    && s.erdp == Slot(|s.host.data|, s.reported)
    && Delivered(s.mail, s.written[..s.read])
    && (s.stopped ==> s.read > 0 && s.written[s.read - 1].Unsupported?)
  }

  lemma WriteKeepsTape(data: seq<EventTrb>, written: seq<Event>, e: Event)
    requires HoldsTape(data, written)
    ensures HoldsTape(data[Slot(|data|, |written|) := Trb(Work(e), Phase(|data|, |written|))], written + [e])
  {
    var m, n := |data|, |written|;
    var data', written' := data[Slot(m, n) := Trb(Work(e), Phase(m, n))], written + [e];
    FreshSlots(m, n);
    forall j: nat | j < n + 1 <= j + m
      ensures HeldAt(data', written', j)
    {
      if j < n {
        assert HeldAt(data, written, j);
        SlotsDistinct(m, j, n);
      }
    }
  }

  lemma WriteKeepsInv(s: System, e: Event, s': System)
    requires Inv(s) && Next(s, Write(e), s')
    ensures Inv(s') && |s'.host.data| == |s.host.data|
  {
    WriteKeepsTape(s.host.data, s.written, e);
    assert s'.written[..s.read] == s.written[..s.read];
  }

  lemma TakeKeepsInv(s: System, s': System)
    requires Inv(s) && Next(s, Take, s')
    ensures Inv(s') && |s'.host.data| == |s.host.data|
  {
    PopTakesNext(s.host, s.written, s.read);
    if s.read < |s.written| {
      OneMoreDelivered(s.mail, s.written, s.read);
    }
  }

  lemma NextKeepsInv(s: System, step: Step, s': System)
    requires Inv(s) && Next(s, step, s')
    ensures Inv(s') && |s'.host.data| == |s.host.data|
  {
    match step
    case Write(e) => WriteKeepsInv(s, e, s');
    case Take => TakeKeepsInv(s, s');
    case Report =>
  }

  ghost predicate IsRun(size: nat, states: seq<System>, steps: seq<Step>)
    requires size >= 1
  {
    && |states| == |steps| + 1
    && states[0] == Start(size)
    && forall i :: 0 <= i < |steps| ==> Next(states[i], steps[i], states[i + 1])
  }

  /**
    However the controller's writes fall between the driver's steps, what has been delivered is
    the written sequence up to `read`, split by kind, and the reported pointer is the slot of the
    first event that had not been read when it was reported.
   */
  lemma {:induction false} DrainIsExactlyOnce(size: nat, states: seq<System>, steps: seq<Step>, i: nat)
    requires size >= 1 && IsRun(size, states, steps) && i <= |steps|
    ensures Inv(states[i]) && |states[i].host.data| == size
  {
    if i == 0 {
      assert states[0].written[..0] == [];
    } else {
      DrainIsExactlyOnce(size, states, steps, i - 1);
      assert Next(states[i - 1], steps[i - 1], states[i - 1 + 1]);
      NextKeepsInv(states[i - 1], steps[i - 1], states[i]);
    }
  }
}
