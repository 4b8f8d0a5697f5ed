/**
  The set of transfer rings and the map that pairs each completion event with the
  oneshot channel of the request that waits for it.
 */
module TransferRings {
  import opened Common
  import opened TrbRing

  // slot id and endpoint id
  type Key = (nat, nat)

  datatype TransferType = NoData | DataOut | DataIn

  datatype Transfer =
    | SetupStage(requestType: nat, request: nat, value: nat, index: nat, length: nat,
                 transferType: TransferType, ioc: bool)
    | DataStage(buffer: nat, length: nat, dirIn: bool, isp: bool, ioc: bool)
    | StatusStage(dirIn: bool, ioc: bool)
    | Normal(buffer: nat, length: nat, ioc: bool)

  /** The completion of this TRB raises an event (interrupt on completion or on short packet). */
  predicate Interrupting(t: Transfer) {
    t.ioc || (t.DataStage? && t.isp)
  }

  datatype Code = Success | ShortPacket | OtherCode(code: nat)

  datatype TransferEvent = TransferEvent(key: Key, trbPointer: nat, code: Code)

  datatype Reply = Ok(event: TransferEvent) | TransferError(event: TransferEvent)

  function ReplyFor(e: TransferEvent): Reply {
    if e.code.Success? || e.code.ShortPacket? then Ok(e) else TransferError(e)
  }

  /** The reply passes the event on, as a success exactly when the transfer was complete or merely short. */
  ghost predicate Tells(reply: Reply, e: TransferEvent) {
    reply.event == e && (reply.Ok? <==> e.code == Success || e.code == ShortPacket)
  }

  /** A oneshot channel is its number; `Quiet` is a push that nobody waits for. */
  datatype PushResult = RingIsFull | Quiet | Waiting(channel: nat)

  // ---------------------------------------------------------------- the driver's side, on values

  datatype HostRing = HostRing(ring: Ring<Transfer>, base: nat)

  datatype Host = Host(
    rings: map<Key, HostRing>,
    listener: map<nat, nat>,
    nextChannel: nat,
    replies: map<nat, Reply>)

  ghost predicate HostOk(h: Host) {
    forall k :: k in h.rings ==> WellFormed(h.rings[k].ring)
  }

  function TrbAddress(base: nat, index: nat): nat {
    base + TRB_BYTES * index
  }

  function Pushed(h: Host, key: Key, t: Transfer): (r: (Host, PushResult))
    requires HostOk(h) && key in h.rings
  {
    var hr := h.rings[key];
    if IsFull(hr.ring) then (h, RingIsFull)
    else
      var rings := h.rings[key := hr.(ring := Stored(hr.ring, t))];
      if Interrupting(t) then
        (h.(rings := rings,
            listener := h.listener[TrbAddress(hr.base, hr.ring.enque) := h.nextChannel],
            nextChannel := h.nextChannel + 1),
         Waiting(h.nextChannel))
      else (h.(rings := rings), Quiet)
  }

  ghost predicate PointsIntoRing(hr: HostRing, ptr: nat) {
    && |hr.ring.data| >= 2
    && hr.base <= ptr
    && (ptr - hr.base) / TRB_BYTES <= |hr.ring.data| - 2
  }

  function OnEvent(h: Host, e: TransferEvent): (h': Host)
    requires e.key in h.rings && PointsIntoRing(h.rings[e.key], e.trbPointer)
  {
    var hr := h.rings[e.key];
    var index := (e.trbPointer - hr.base) / TRB_BYTES;
    var rings := h.rings[e.key := hr.(ring := hr.ring.(deque := NextPtr(|hr.ring.data|, index)))];
    if e.trbPointer in h.listener
    then h.(rings := rings,
            listener := h.listener - {e.trbPointer},
            replies := h.replies[h.listener[e.trbPointer] := ReplyFor(e)])
    else h.(rings := rings)
  }

  // ---------------------------------------------------------------- the class

  datatype RequestType = GetDescriptor | SetConfiguration | SetProtocol | SetInterface

  datatype SetupData = SetupData(requestType: RequestType, value: nat, index: nat, length: nat)

  /** bmRequestType and bRequest of the control transfers the driver sends. */
  function ActualValue(t: RequestType): (nat, nat) {
    match t
    case GetDescriptor => (0x80, 6)
    case SetConfiguration => (0x00, 9)
    case SetProtocol => (0x21, 11)
    case SetInterface => (0x01, 11)
  }

  /**
    The fields of bmRequestType, as section 9.3 of the USB 2.0 specification divides it: only a descriptor is read
    from the device, only the protocol is a class request, and protocol and interface are set on an interface.
   */
  lemma RequestFields(t: RequestType)
    ensures var (requestType, request) := ActualValue(t);
      && requestType < 256
      && (requestType / 128 == 1 <==> t == GetDescriptor)
      && requestType / 32 % 4 == (if t == SetProtocol then 1 else 0)
      && requestType % 32 == (if t == SetProtocol || t == SetInterface then 1 else 0)
      && request == (if t == GetDescriptor then 6 else if t == SetConfiguration then 9 else 11)
  {
  }

  /** The TRBs of a control transfer, in ring order; the middle one only when data follows. */
  function ControlTrbs(setup: SetupData, buffer: Option<nat>): (s: seq<Transfer>)
    requires setup.length != 0 ==> buffer.Some?
    ensures |s| == if setup.length == 0 then 2 else 3
    ensures forall i :: 0 <= i < |s| ==> Interrupting(s[i])
    ensures s[0].SetupStage? && s[0].length == setup.length && s[|s| - 1].StatusStage?
    // the fields of the caller, at their places
    ensures s[0].value == setup.value && s[0].index == setup.index
    ensures (s[0].requestType, s[0].request) == ActualValue(setup.requestType)
    // without data the status stage goes to the host; otherwise it goes against the data
    ensures setup.length == 0 ==> s[0].transferType.NoData? && s[1].dirIn
    ensures setup.length != 0 ==>
      && s[1].DataStage? && s[1].length == setup.length && s[1].buffer == buffer.value
      && s[1].dirIn == (s[0].requestType >= 0x80) && s[2].dirIn != s[1].dirIn
      && s[0].transferType == if s[1].dirIn then DataIn else DataOut
  {
    var (requestType, request) := ActualValue(setup.requestType);
    var toHost := requestType / 128 == 1;
    var transferType := if setup.length == 0 then NoData else if toHost then DataIn else DataOut;
    var setupTrb := SetupStage(requestType, request, setup.value, setup.index, setup.length, transferType, true);
    var statusTrb := StatusStage(!(toHost && setup.length != 0), true);
    if setup.length == 0 then [setupTrb, statusTrb]
    else [setupTrb, DataStage(buffer.value, setup.length, toHost, true, true), statusTrb]
  }

  /**
    The map owns its rings, so a push replaces the entry of one key.  `nextChannel` numbers
    the oneshot channels created so far, `replies` is what has been sent into them and
    `doorbells` lists the slots whose doorbell has been rung.
   */
  class TransferRingSet {
    var rings: map<Key, HostRing>
    var listener: map<nat, nat>
    var nextChannel: nat
    var replies: map<nat, Reply>
    var doorbells: seq<nat>
    const ringSize: nat

    ghost predicate Valid()
      reads this
    {
      ringSize >= 2 && HostOk(State())
    }

    ghost function State(): Host
      reads this
    {
      Host(rings, listener, nextChannel, replies)
    }

    constructor (ringSize: nat)
      requires ringSize >= 2
      ensures Valid() && State() == Host(map[], map[], 0, map[])
      ensures doorbells == [] && this.ringSize == ringSize
    {
      rings, listener, nextChannel, replies := map[], map[], 0, map[];
      doorbells := [];
      this.ringSize := ringSize;
    }

    /** The memory allocator decides `base`. */
    method InitRingAt(key: Key, base: nat) returns (ptr: nat)
      requires Valid()
      modifies this`rings
      ensures Valid() && ptr == base
      ensures State() == old(State()).(rings := old(rings)[key := HostRing(FreshRing(ringSize), base)])
    {
      rings := rings[key := HostRing(FreshRing(ringSize), base)];
      ptr := rings[key].base;
    }

    method PushTransferTrb(key: Key, t: Transfer) returns (r: PushResult)
      requires Valid() && key in rings
      modifies this`rings, this`listener, this`nextChannel
      ensures Valid() && (State(), r) == Pushed(old(State()), key, t)
      ensures r.RingIsFull? <==> Room(old(rings)[key].ring) == 0
      ensures !r.RingIsFull? ==> key in rings && Room(rings[key].ring) == Room(old(rings)[key].ring) - 1
    {
      var hr := rings[key];
      if IsFull(hr.ring) {
        return RingIsFull;
      }
      StoredTakesRoom(hr.ring, t);
      var ptr := TrbAddress(hr.base, hr.ring.enque);
      rings := rings[key := hr.(ring := Stored(hr.ring, t))];
      if Interrupting(t) {
        listener := listener[ptr := nextChannel];
        r := Waiting(nextChannel);
        nextChannel := nextChannel + 1;
      } else {
        r := Quiet;
      }
    }

    method OnTrfEvent(e: TransferEvent)
      requires Valid() && e.key in rings && PointsIntoRing(rings[e.key], e.trbPointer)
      modifies this`rings, this`listener, this`replies
      ensures Valid() && State() == OnEvent(old(State()), e)
      ensures e.trbPointer !in old(listener) ==> listener == old(listener) && replies == old(replies)
      ensures e.trbPointer in old(listener) ==>
        var c := old(listener)[e.trbPointer];
        && listener == old(listener) - {e.trbPointer}
        && c in replies && Tells(replies[c], e) && replies == old(replies)[c := replies[c]]
    {
      var hr := rings[e.key];
      var index := (e.trbPointer - hr.base) / TRB_BYTES;
      rings := rings[e.key := hr.(ring := hr.ring.(deque := NextPtr(|hr.ring.data|, index)))];
      var result := ReplyFor(e);
      if e.trbPointer in listener {
        replies := replies[listener[e.trbPointer] := result];
        listener := listener - {e.trbPointer};
      }
    }

    /**
      Queues the stages of a control transfer.  The request succeeds exactly when the ring
      has room for all of them; otherwise the stages that did fit stay in the ring.  The
      channel returned is that of the data stage, or of the setup stage without data.
     */
    method ControlRequest(slot: nat, setup: SetupData, buffer: Option<nat>) returns (r: PushResult)
      requires Valid() && (slot, 1) in rings
      requires setup.length != 0 ==> buffer.Some?
      modifies this`rings, this`listener, this`nextChannel, this`doorbells
      ensures Valid()
      ensures StagesPushed(old(State()), (slot, 1), ControlTrbs(setup, buffer), State(), r)
      ensures doorbells == old(doorbells) + (if r.RingIsFull? then [] else [slot])
    {
      if setup.length == 0 {
        r := PushTwoStages((slot, 1), ControlTrbs(setup, buffer));
      } else {
        r := PushThreeStages((slot, 1), ControlTrbs(setup, buffer));
      }
      if !r.RingIsFull? {
        doorbells := doorbells + [slot];
      }
    }

    /** One stage more, when there is room. */
    method PushStage(key: Key, trbs: seq<Transfer>, k: nat, ghost h: Host) returns (r: PushResult)
      requires Valid() && k < |trbs| && Interrupting(trbs[k]) && StagesSoFar(h, key, trbs, k, State())
      modifies this`rings, this`listener, this`nextChannel
      ensures Valid() && (r.RingIsFull? <==> Room(h.rings[key].ring) == k)
      ensures r.RingIsFull? ==> State() == old(State())
      ensures !r.RingIsFull? ==> StagesSoFar(h, key, trbs, k + 1, State()) && r == Waiting(h.nextChannel + k)
    {
      PushedOneMore(h, key, trbs, k);
      r := PushTransferTrb(key, trbs[k]);
    }

    /** Setup and status; the caller waits for the setup stage. */
    method PushTwoStages(key: Key, trbs: seq<Transfer>) returns (r: PushResult)
      requires Valid() && key in rings && |trbs| == 2 && forall t :: t in trbs ==> Interrupting(t)
      modifies this`rings, this`listener, this`nextChannel
      ensures Valid() && StagesPushed(old(State()), key, trbs, State(), r)
    {
      ghost var h := State();
      r := PushStage(key, trbs, 0, h);
      if r.RingIsFull? { return; }
      var status := PushStage(key, trbs, 1, h);
      if status.RingIsFull? { return status; }
      assert trbs[..2] == trbs;
    }

    /** Setup, data and status; the caller waits for the data stage. */
    method PushThreeStages(key: Key, trbs: seq<Transfer>) returns (r: PushResult)
      requires Valid() && key in rings && |trbs| == 3 && forall t :: t in trbs ==> Interrupting(t)
      modifies this`rings, this`listener, this`nextChannel
      ensures Valid() && StagesPushed(old(State()), key, trbs, State(), r)
    {
      ghost var h := State();
      r := PushStage(key, trbs, 0, h);
      if r.RingIsFull? { return; }
      r := PushStage(key, trbs, 1, h);
      if r.RingIsFull? { return; }
      var status := PushStage(key, trbs, 2, h);
      if status.RingIsFull? { return status; }
      assert trbs[..3] == trbs;
    }
  }

  /** The first k stages are in the ring, each with a channel, and k places are taken. */
  ghost predicate StagesSoFar(h: Host, key: Key, trbs: seq<Transfer>, k: nat, h': Host) {
    && HostOk(h) && key in h.rings && HostOk(h') && key in h'.rings && k <= |trbs|
    && h' == PushedAll(h, key, trbs[..k])
    && Room(h'.rings[key].ring) == Room(h.rings[key].ring) - k && h'.nextChannel == h.nextChannel + k
  }

  /** As many of the stages were pushed as fit; the channel is that of the stage before the last. */
  ghost predicate StagesPushed(h: Host, key: Key, trbs: seq<Transfer>, h': Host, r: PushResult)
    requires HostOk(h) && key in h.rings && |trbs| >= 2
  {
    var room := Room(h.rings[key].ring);
    && h' == PushedAll(h, key, trbs[..if room < |trbs| then room else |trbs|])
    && (r.RingIsFull? <==> room < |trbs|)
    && (!r.RingIsFull? ==> r == Waiting(h.nextChannel + |trbs| - 2))
  }

  /** Pushes in sequence, none of which finds the ring full. */
  ghost function PushedAll(h: Host, key: Key, ts: seq<Transfer>): (h': Host)
    requires HostOk(h) && key in h.rings
    ensures HostOk(h') && key in h'.rings
    decreases |ts|
  {
    if ts == [] then h
    else PushedAll(Pushed(h, key, ts[0]).0, key, ts[1..])
  }

  lemma {:induction false} PushedOneMore(h: Host, key: Key, ts: seq<Transfer>, k: nat)
    requires HostOk(h) && key in h.rings && k < |ts|
    ensures PushedAll(h, key, ts[..k + 1]) == Pushed(PushedAll(h, key, ts[..k]), key, ts[k]).0
    decreases k
  {
    if k > 0 {
      PushedOneMore(Pushed(h, key, ts[0]).0, key, ts[1..], k - 1);
      assert ts[..k + 1][1..] == ts[1..][..k] && ts[..k][1..] == ts[1..][..k - 1];
    }
  }
}
