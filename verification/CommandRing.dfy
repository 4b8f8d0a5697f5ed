/**
  The command ring.  Completions are paired with their oneshot channels, but they never
  move the ring's dequeue index, so the ring is a budget that is spent once: a ring of N
  slots accepts N - 2 commands in its lifetime, however many of them have completed.
  What it does accept is fetched in order, and each completion reaches the caller whose command it is about.
 */
module CommandRing {
  import opened Common
  import opened TrbRing

  type Command = nat

  datatype Completion = Completion(trbPointer: nat, slotId: nat)

  /** `channels` counts the oneshot channels made; `answers` is what was sent into them. */
  datatype Commands = Commands(
    ring: Ring<Command>,
    base: nat,
    listener: map<nat, nat>,
    channels: nat,
    answers: map<nat, Completion>)

  function AfterPush(c: Commands, cmd: Command): (r: (Commands, Option<nat>))
    requires WellFormed(c.ring)
  {
    if IsFull(c.ring) then (c, None)
    else (c.(ring := Stored(c.ring, cmd),
             listener := c.listener[c.base + TRB_BYTES * c.ring.enque := c.channels],
             channels := c.channels + 1),
          Some(c.channels))
  }

  function AfterCompletion(c: Commands, e: Completion): (c': Commands) {
    if e.trbPointer in c.listener
    then c.(listener := c.listener - {e.trbPointer}, answers := c.answers[c.listener[e.trbPointer] := e])
    else c
  }

  class CommandQueue {
    var ring: ProducerRing<Command>
    var listener: map<nat, nat>
    var channels: nat
    var answers: map<nat, Completion>

    ghost predicate Valid()
      reads this, ring, ring.data
    {
      ring.Valid()
    }

    ghost function State(): Commands
      reads this, ring, ring.data
    {
      Commands(ring.State(), ring.base, listener, channels, answers)
    }

    /** `init_command_ring` takes a size and ignores it. */
    constructor (size: nat, base: nat)
      ensures Valid() && fresh(ring) && fresh(ring.data)
      ensures State() == Fresh(base)
    {
      ring := new ProducerRing<Command>(32, base);
      listener, channels, answers := map[], 0, map[];
    }

    method PushCommand(cmd: Command) returns (r: Option<nat>)
      requires Valid()
      modifies this`listener, this`channels, ring, ring.data
      ensures Valid() && ring == old(ring) && ring.data == old(ring.data)
      ensures (State(), r) == AfterPush(old(State()), cmd)
      ensures r.Some? ==>
        && ring.data[old(ring.enque)] == Trb(Work(cmd), old(ring.cycleState))
        && listener == old(listener)[ring.base + TRB_BYTES * old(ring.enque) := r.value]
    {
      var ptr := ring.Push(cmd);
      if ptr.None? {
        return None;
      }
      listener := listener[ptr.value := channels];
      r := Some(channels);
      channels := channels + 1;
    }

    method OnCommandCompletion(e: Completion)
      requires Valid()
      modifies this`listener, this`answers
      ensures Valid() && State() == AfterCompletion(old(State()), e)
    {
      if e.trbPointer in listener {
        answers := answers[listener[e.trbPointer] := e];
        listener := listener - {e.trbPointer};
      }
    }
  }

  function Fresh(base: nat): Commands {
    Commands(FreshRing(32), base, map[], 0, map[])
  }

  // ---------------------------------------------------------------- queue and controller together

  /** The queue, and the controller that fetches from its ring. */
  datatype Desk = Desk(commands: Commands, sys: System<Command>)

  datatype Step = Ask(command: Command) | Complete(completion: Completion) | Look

  ghost function AfterStep(d: Desk, step: Step): Desk
    requires WellFormed(d.commands.ring)
  {
    match step
    case Ask(cmd) =>
      var (c, r) := AfterPush(d.commands, cmd);
      Desk(c, if r.None? then d.sys else d.sys.(ring := c.ring, pushed := d.sys.pushed + [cmd]))
    case Complete(e) => d.(commands := AfterCompletion(d.commands, e))
    case Look => if d.sys.index < |d.sys.ring.data| then d.(sys := AfterFetch(d.sys)) else d
  }

  /** Channel k belongs to the k-th TRB: it was answered for it, or is still filed at its address. */
  ghost predicate ChannelFiled(c: Commands, k: nat) {
    var a := c.base + TRB_BYTES * k;
    if k in c.answers then c.answers[k].trbPointer == a else a in c.listener && c.listener[a] == k
  }

  ghost predicate ListenerFiled(c: Commands, a: nat)
    requires a in c.listener
  {
    var k := c.listener[a];
    k < c.channels && a == c.base + TRB_BYTES * k && k !in c.answers
  }

  /** No slot is ever reused. */
  ghost predicate ChannelsFiled(c: Commands) {
    && (forall k {:trigger ChannelFiled(c, k)} :: 0 <= k < c.channels ==> ChannelFiled(c, k))
    && (forall a {:trigger ListenerFiled(c, a)} :: a in c.listener ==> ListenerFiled(c, a))
    && (forall k :: k in c.answers ==> k < c.channels)
  }

  ghost function FirstThirty(commands: seq<Command>): seq<Command> {
    if |commands| <= 30 then commands else commands[..30]
  }

  /** Of the commands asked for the first thirty were accepted, and none of their places was given back. */
  ghost predicate Spent(d: Desk, base: nat, commands: seq<Command>) {
    && d.sys.ring == d.commands.ring && Inv(d.sys)
    && |d.sys.ring.data| == 32 && d.sys.acked == 0 && d.commands.base == base
    && d.sys.pushed == FirstThirty(commands)
    && d.commands.channels == |d.sys.pushed|
    && ChannelsFiled(d.commands)
  }

  /** Slots are used in order, all of them in the first lap. */
  lemma FirstLap(n: nat)
    requires n <= 30
    ensures Slot(31, n) == n && Phase(31, n)
  {
    SlotAhead(31, 0, n);
  }

  lemma PushFiles(c: Commands, cmd: Command)
    requires WellFormed(c.ring) && ChannelsFiled(c) && c.ring.enque == c.channels
    ensures ChannelsFiled(AfterPush(c, cmd).0)
  {
    var c' := AfterPush(c, cmd).0;
    forall k | 0 <= k < c'.channels
      ensures ChannelFiled(c', k)
    {
      assert k < c.channels ==> ChannelFiled(c, k);
    }
    forall a | a in c'.listener
      ensures ListenerFiled(c', a)
    {
      assert a in c.listener ==> ListenerFiled(c, a);
    }
  }

  /** The k-th command asked for gets channel k and a place for good, or is refused from the thirtieth on. */
  lemma PushSpends(d: Desk, base: nat, commands: seq<Command>, cmd: Command)
    requires Spent(d, base, commands)
    ensures WellFormed(d.commands.ring) && Spent(AfterStep(d, Ask(cmd)), base, commands + [cmd])
    ensures AfterPush(d.commands, cmd).1 == if |commands| < 30 then Some(|commands|) else None
  {
    FirstLap(|d.sys.pushed|);
    FullIffOutstanding(d.sys);
    PushFiles(d.commands, cmd);
    if |commands| < 30 {
      PushKeepsInv(d.sys, cmd);
    }
  }

  lemma CompletionFiles(c: Commands, e: Completion)
    requires ChannelsFiled(c)
    ensures ChannelsFiled(AfterCompletion(c, e))
  {
    var c' := AfterCompletion(c, e);
    assert e.trbPointer in c.listener ==> ListenerFiled(c, e.trbPointer);
    forall k | 0 <= k < c'.channels
      ensures ChannelFiled(c', k)
    {
      assert ChannelFiled(c, k);
    }
    forall a | a in c'.listener
      ensures ListenerFiled(c', a)
    {
      assert ListenerFiled(c, a);
    }
  }

  lemma CompletionRefundsNothing(d: Desk, base: nat, commands: seq<Command>, e: Completion)
    requires Spent(d, base, commands)
    ensures WellFormed(d.commands.ring) && Spent(AfterStep(d, Complete(e)), base, commands)
  {
    CompletionFiles(d.commands, e);
  }

  /** A completion answers the channel of the slot that it names, if that has no answer yet, and no other. */
  lemma CompletionAnswers(c: Commands, e: Completion, k: nat)
    requires ChannelsFiled(c) && k < c.channels
    ensures var answers := AfterCompletion(c, e).answers;
      if k !in c.answers && e.trbPointer == c.base + TRB_BYTES * k
      then k in answers && answers[k] == e
      else (k in answers <==> k in c.answers) && (k in answers ==> answers[k] == c.answers[k])
  {
    assert ChannelFiled(c, k);
    assert e.trbPointer in c.listener ==> ListenerFiled(c, e.trbPointer);
  }

  lemma LookSpendsNothing(d: Desk, base: nat, commands: seq<Command>)
    requires Spent(d, base, commands)
    ensures WellFormed(d.commands.ring) && Spent(AfterStep(d, Look), base, commands)
  {
    if d.sys.index < |d.sys.ring.data| {
      FetchKeepsInv(d.sys);
    }
  }

  // ---------------------------------------------------------------- every run

  ghost function After(base: nat, steps: seq<Step>): (d: Desk)
    ensures Spent(d, base, Asked(steps))
  {
    if steps == [] then
      Begun(base);
      Desk(Fresh(base), Start(32))
    else
      var before, last := steps[..|steps| - 1], steps[|steps| - 1];
      var d := After(base, before);
      match last
      case Ask(cmd) => PushSpends(d, base, Asked(before), cmd); AfterStep(d, last)
      case Complete(e) => CompletionRefundsNothing(d, base, Asked(before), e); AfterStep(d, last)
      case Look => LookSpendsNothing(d, base, Asked(before)); AfterStep(d, last)
  }

  lemma Begun(base: nat)
    ensures Spent(Desk(Fresh(base), Start(32)), base, [])
  {
    StartInv<Command>(32);
  }

  /** The commands that callers have asked to push, accepted or not. */
  ghost function Asked(steps: seq<Step>): seq<Command> {
    if steps == [] then []
    else
      Asked(steps[..|steps| - 1]) + match steps[|steps| - 1] case Ask(cmd) => [cmd] case _ => []
  }

  /**
    After any run exactly the first thirty commands were accepted, whatever completed in between;
    every channel is either answered by the completion of its own TRB or still filed at its address.
   */
  lemma LifetimeBudget(base: nat, steps: seq<Step>)
    ensures var c := After(base, steps).commands;
      && c.channels == (if |Asked(steps)| < 30 then |Asked(steps)| else 30)
      && |c.ring.data| >= 2 && (IsFull(c.ring) <==> |Asked(steps)| >= 30)
      && forall k :: 0 <= k < c.channels ==> ChannelFiled(c, k)
  {
    FullIffOutstanding(After(base, steps).sys);
  }

  /** Slot k holds the k-th command for ever, and the controller fetches the accepted commands in order. */
  lemma CommandsAreFetched(base: nat, steps: seq<Step>)
    ensures var d := After(base, steps);
      && |d.commands.ring.data| == 32 && |d.sys.fetchedAt| == |d.sys.fetched| <= d.commands.channels <= 30
      && d.commands.channels <= |Asked(steps)|
      && (forall k :: 0 <= k < d.commands.channels ==> d.commands.ring.data[k] == Trb(Work(Asked(steps)[k]), true))
      && (forall k :: 0 <= k < |d.sys.fetched| ==>
            d.sys.fetched[k] == Work(Asked(steps)[k]) && d.sys.fetchedAt[k] == k)
  {
    var d := After(base, steps);
    forall k | 0 <= k < d.commands.channels
      ensures d.commands.ring.data[k] == Trb(Work(Asked(steps)[k]), true)
    {
      FirstLap(k);
      assert HeldAt(d.sys.ring.data, d.sys.pushed, k);
    }
    forall k | 0 <= k < |d.sys.fetched|
      ensures d.sys.fetched[k] == Work(Asked(steps)[k]) && d.sys.fetchedAt[k] == k
    {
      FirstLap(k);
    }
  }

  /** The first completion that names slot k, once the k-th command has been asked for, told by the steps alone. */
  ghost function AnswerTo(base: nat, steps: seq<Step>, k: nat): Option<Completion> {
    if steps == [] then None
    else
      var before := steps[..|steps| - 1];
      if AnswerTo(base, before, k).Some? then AnswerTo(base, before, k)
      else
        match steps[|steps| - 1]
        case Complete(e) => if k < |Asked(before)| && e.trbPointer == base + TRB_BYTES * k then Some(e) else None
        case _ => None
  }

  /** Channel k has been sent `r`, or nothing. */
  ghost predicate AnsweredWith(c: Commands, k: nat, r: Option<Completion>) {
    (k in c.answers <==> r.Some?) && (k in c.answers ==> c.answers[k] == r.value)
  }

  lemma NotYetAnswered(c: Commands, e: Completion, k: nat)
    requires ChannelsFiled(c) && k >= c.channels
    ensures k !in c.answers && k !in AfterCompletion(c, e).answers
  {
    CompletionFiles(c, e);
  }

  lemma AnswerStep(c: Commands, e: Completion, k: nat, r: Option<Completion>)
    requires ChannelsFiled(c) && AnsweredWith(c, k, r)
    ensures AnsweredWith(AfterCompletion(c, e), k,
                         if r.None? && k < c.channels && e.trbPointer == c.base + TRB_BYTES * k then Some(e) else r)
  {
    if k < c.channels { CompletionAnswers(c, e, k); } else { NotYetAnswered(c, e, k); }
  }

  lemma {:induction false} AnsweredByFirst(base: nat, steps: seq<Step>, k: nat)
    requires k < 30
    ensures AnsweredWith(After(base, steps).commands, k, AnswerTo(base, steps, k))
    decreases |steps|
  {
    if steps != [] {
      var before := steps[..|steps| - 1];
      AnsweredByFirst(base, before, k);
      if steps[|steps| - 1].Complete? {
        AnswerStep(After(base, before).commands, steps[|steps| - 1].completion, k, AnswerTo(base, before, k));
      }
    }
  }

  /** What a caller gets back: the number of their command, or nothing from the thirtieth on. */
  lemma PushReturns(base: nat, steps: seq<Step>, cmd: Command)
    ensures WellFormed(After(base, steps).commands.ring)
    ensures AfterPush(After(base, steps).commands, cmd).1 ==
      if |Asked(steps)| < 30 then Some(|Asked(steps)|) else None
  {
    PushSpends(After(base, steps), base, Asked(steps), cmd);
  }

  /** The 31st command is refused even when all 30 before it have completed. */
  lemma CompletionsDoNotMakeRoom(base: nat, steps: seq<Step>, cmd: Command)
    requires |Asked(steps)| >= 30
    ensures WellFormed(After(base, steps).commands.ring) && AfterPush(After(base, steps).commands, cmd).1.None?
  {
    PushReturns(base, steps, cmd);
  }

  /**
    A command that is accepted gets the channel of its number; from then on its slot holds it, and what its caller
    receives on that channel is the first completion that names its slot, the whole of it.
   */
  lemma CommandGetsItsAnswer(base: nat, before: seq<Step>, cmd: Command, later: seq<Step>)
    requires |Asked(before)| < 30
    ensures WellFormed(After(base, before).commands.ring)
    ensures AfterPush(After(base, before).commands, cmd).1 == Some(|Asked(before)|)
    ensures var k, steps := |Asked(before)|, before + [Ask(cmd)] + later;
      && var c := After(base, steps).commands;
      && |c.ring.data| == 32 && c.ring.data[k] == Trb(Work(cmd), true)
      && AnsweredWith(c, k, AnswerTo(base, steps, k))
  {
    var k, steps := |Asked(before)|, before + [Ask(cmd)] + later;
    PushReturns(base, before, cmd);
    AskedStays(before, cmd, later);
    CommandsAreFetched(base, steps);
    AnsweredByFirst(base, steps, k);
  }

  lemma {:induction false} AskedStays(before: seq<Step>, cmd: Command, later: seq<Step>)
    ensures var asked := Asked(before + [Ask(cmd)] + later);
      |Asked(before)| < |asked| && asked[|Asked(before)|] == cmd
    decreases |later|
  {
    var steps := before + [Ask(cmd)] + later;
    if later == [] {
      assert steps[..|steps| - 1] == before;
    } else {
      assert steps[..|steps| - 1] == before + [Ask(cmd)] + later[..|later| - 1];
      AskedStays(before, cmd, later[..|later| - 1]);
    }
  }
}
