/**
  The channels, wakers and executor of the USB driver, as an interleaved step machine.

  A send is three steps: push under the queue lock, take the waker under the waker lock,
  and, still holding that lock, append the task to the executor's queue.  A poll of
  `Recv` is one or two: pop under the queue lock, and when the queue was empty store the
  waker without giving the queue lock back.  Any number of senders run concurrently with
  the one executor, any task may await any channel, and any task may be woken for no
  reason at any time.
 */
module AsyncRuntime {
  import opened Common

  type Task = nat
  type Channel = nat
  type Agent = nat
  type Message = nat

  datatype TaskSlot = Empty | Holds(task: Task)

  /** `sent` and `received` are a record of the run; the channel itself is its queue and its waker. */
  datatype Chan = Chan(queue: seq<Message>, waker: TaskSlot, sent: seq<Message>, received: seq<Message>)

  /** `Waking` holds the waker lock of its channel. */
  datatype SenderPc = Idle | Pushed(channel: Channel) | Waking(channel: Channel, task: Task)

  /** `Working` runs its own code between two awaits; `Finished` has had its future taken. */
  datatype TaskPc = Working | Awaiting(channel: Channel) | Finished

  /** `Registering` has found the queue empty and still holds its lock. */
  datatype ExecPc = NoTask | Polling(task: Task) | Registering(task: Task, channel: Channel)

  /** `results` lists the tasks whose result the executor has returned. */
  datatype State = State(
    chans: map<Channel, Chan>,
    senders: map<Agent, SenderPc>,
    runQueue: seq<Task>,
    tasks: map<Task, TaskPc>,
    exec: ExecPc,
    results: seq<Task>)

  datatype Step =
    | Spawn(task: Task)
    | SendPush(agent: Agent, channel: Channel, message: Message)
    | SendTake(agent: Agent)
    | SendWake(agent: Agent)
    | SpuriousWake(task: Task)
    | NextTask
    | Work(next: TaskPc)
    | PollPop
    | PollRegister

  // ---------------------------------------------------------------- steps

  ghost predicate WakerLocked(s: State, c: Channel) {
    exists a :: a in s.senders && s.senders[a].Waking? && s.senders[a].channel == c
  }

  ghost predicate QueueLocked(s: State, c: Channel) {
    s.exec.Registering? && s.exec.channel == c
  }

  ghost predicate SendersKnow(s: State) {
    && (forall a :: a in s.senders && !s.senders[a].Idle? ==> s.senders[a].channel in s.chans)
    && (forall a :: a in s.senders && s.senders[a].Waking? ==> s.senders[a].task in s.tasks)
  }

  ghost predicate TasksKnow(s: State) {
    && (forall t :: t in s.tasks && s.tasks[t].Awaiting? ==> s.tasks[t].channel in s.chans)
    && (forall c :: c in s.chans && s.chans[c].waker.Holds? ==> s.chans[c].waker.task in s.tasks)
    && (forall t :: t in s.runQueue ==> t in s.tasks)
    && (!s.exec.NoTask? ==> s.exec.task in s.tasks)
    && (s.exec.Registering? ==> s.exec.channel in s.chans)
  }

  /** Senders, wakers, the run queue and the executor name channels and tasks that exist. */
  ghost predicate WellFormed(s: State) {
    SendersKnow(s) && TasksKnow(s)
  }

  ghost predicate Enabled(s: State, step: Step)
    requires WellFormed(s)
  {
    match step
    case Spawn(t) => t !in s.tasks
    case SendPush(a, c, _) => a in s.senders && s.senders[a].Idle? && c in s.chans && !QueueLocked(s, c)
    case SendTake(a) => a in s.senders && s.senders[a].Pushed? && !WakerLocked(s, s.senders[a].channel)
    case SendWake(a) => a in s.senders && s.senders[a].Waking?
    case SpuriousWake(t) => t in s.tasks
    case NextTask => s.exec.NoTask? && s.runQueue != []
    case Work(next) =>
      && s.exec.Polling? && s.tasks[s.exec.task].Working?
      && !next.Working? && (next.Awaiting? ==> next.channel in s.chans)
    case PollPop => s.exec.Polling? && s.tasks[s.exec.task].Awaiting?
    case PollRegister => s.exec.Registering? && !WakerLocked(s, s.exec.channel)
  }

  ghost function Do(s: State, step: Step): State
    requires WellFormed(s) && Enabled(s, step)
  {
    match step
    case Spawn(t) => s.(tasks := s.tasks[t := Working], runQueue := s.runQueue + [t])
    case SendPush(a, c, m) =>
      var ch := s.chans[c];
      s.(chans := s.chans[c := ch.(queue := ch.queue + [m], sent := ch.sent + [m])],
         senders := s.senders[a := Pushed(c)])
    case SendTake(a) =>
      var c := s.senders[a].channel;
      var ch := s.chans[c];
      if ch.waker.Empty? then s.(senders := s.senders[a := Idle])
      else s.(chans := s.chans[c := ch.(waker := Empty)], senders := s.senders[a := Waking(c, ch.waker.task)])
    case SendWake(a) => s.(senders := s.senders[a := Idle], runQueue := s.runQueue + [s.senders[a].task])
    case SpuriousWake(t) => s.(runQueue := s.runQueue + [t])
    case NextTask =>
      // a task whose future was taken is dropped without a poll
      var t := s.runQueue[0];
      s.(runQueue := s.runQueue[1..], exec := if s.tasks[t].Finished? then NoTask else Polling(t))
    case Work(next) =>
      s.(tasks := s.tasks[s.exec.task := next],
         exec := if next.Finished? then NoTask else s.exec,
         results := if next.Finished? then s.results + [s.exec.task] else s.results)
    case PollPop =>
      var t, c := s.exec.task, s.tasks[s.exec.task].channel;
      var ch := s.chans[c];
      if ch.queue == [] then s.(exec := Registering(t, c))
      else s.(chans := s.chans[c := ch.(queue := ch.queue[1..], received := ch.received + [ch.queue[0]])],
              tasks := s.tasks[t := Working])
    case PollRegister =>
      var c := s.exec.channel;
      s.(chans := s.chans[c := s.chans[c].(waker := Holds(s.exec.task))], exec := NoTask)
  }

  ghost predicate Next(s: State, step: Step, s': State)
    requires WellFormed(s)
  {
    Enabled(s, step) && s' == Do(s, step)
  }

  // ---------------------------------------------------------------- what every step keeps

  ghost predicate Executing(s: State, t: Task) {
    !s.exec.NoTask? && s.exec.task == t
  }

  /** Some sender still has to take the waker of `c`. */
  ghost predicate TakePending(s: State, c: Channel) {
    exists a :: a in s.senders && s.senders[a] == Pushed(c)
  }

  /** Some sender has taken the waker of `t` from `c` and is about to schedule `t`. */
  ghost predicate WakePending(s: State, c: Channel, t: Task) {
    exists a :: a in s.senders && s.senders[a] == Waking(c, t)
  }

  ghost predicate ExecOk(s: State) {
    && (s.exec.Polling? ==> s.exec.task in s.tasks && !s.tasks[s.exec.task].Finished?)
    && (s.exec.Registering? ==>
          && s.exec.task in s.tasks && s.tasks[s.exec.task] == Awaiting(s.exec.channel)
          && s.exec.channel in s.chans && s.chans[s.exec.channel].queue == [])
  }

  /** A message behind a registered waker was pushed by a sender that has yet to take the waker. */
  ghost predicate WakerNoticed(s: State, c: Channel)
    requires c in s.chans
  {
    s.chans[c].queue != [] && s.chans[c].waker.Holds? ==> TakePending(s, c)
  }

  /** Messages are received in the order they were sent, each once. */
  ghost predicate IsFifo(ch: Chan) {
    ch.sent == ch.received + ch.queue
  }

  ghost predicate FinishedOnce(s: State) {
    && (forall t :: t in s.results <==> t in s.tasks && s.tasks[t].Finished?)
    && NoDuplicates(s.results)
  }

  ghost predicate Inv(s: State) {
    && WellFormed(s) && ExecOk(s) && FinishedOnce(s)
    && (forall c {:trigger WakerNoticed(s, c)} :: c in s.chans ==> WakerNoticed(s, c))
    && (forall c {:trigger IsFifo(s.chans[c])} :: c in s.chans ==> IsFifo(s.chans[c]))
  }

  lemma SendersKnowKept(s: State, step: Step, s': State)
    requires WellFormed(s) && Next(s, step, s')
    ensures SendersKnow(s')
  {
  }

  lemma TasksKnowKept(s: State, step: Step, s': State)
    requires WellFormed(s) && Next(s, step, s')
    ensures TasksKnow(s')
  {
    assert forall t :: t in s.tasks ==> t in s'.tasks;
  }

  lemma ChannelsKept(s: State, step: Step, s': State)
    requires WellFormed(s) && Next(s, step, s')
    ensures s'.chans.Keys == s.chans.Keys
  {
  }

  lemma ExecOkKept(s: State, step: Step, s': State)
    requires WellFormed(s) && ExecOk(s) && Next(s, step, s')
    ensures ExecOk(s')
  {
  }

  lemma FinishedOnceKept(s: State, step: Step, s': State)
    requires WellFormed(s) && FinishedOnce(s) && ExecOk(s) && Next(s, step, s')
    ensures FinishedOnce(s')
  {
  }

  lemma WakerNoticedKept(s: State, step: Step, s': State, c: Channel)
    requires WellFormed(s) && ExecOk(s) && Next(s, step, s') && c in s.chans && WakerNoticed(s, c)
    ensures c in s'.chans && WakerNoticed(s', c)
  {
    if TakePending(s, c) {
      var a :| a in s.senders && s.senders[a] == Pushed(c);
      assert a in s'.senders && (s'.senders[a] == Pushed(c) || s'.chans[c].waker.Empty?);
    }
    if step.SendPush? && step.channel == c {
      assert s'.senders[step.agent] == Pushed(c);
    }
  }

  lemma FifoKept(s: State, step: Step, s': State, c: Channel)
    requires WellFormed(s) && Next(s, step, s') && c in s.chans && IsFifo(s.chans[c])
    ensures c in s'.chans && IsFifo(s'.chans[c])
  {
    var ch := s.chans[c];
    match step
    case SendPush(a, d, m) => FifoPush(ch, m);
    case PollPop => if ch.queue != [] { FifoPop(ch); }
    case _ => {}
  }

  lemma FifoPush(ch: Chan, m: Message)
    requires IsFifo(ch)
    ensures IsFifo(ch.(queue := ch.queue + [m], sent := ch.sent + [m]))
  {
  }

  lemma FifoPop(ch: Chan)
    requires IsFifo(ch) && ch.queue != []
    ensures IsFifo(ch.(queue := ch.queue[1..], received := ch.received + [ch.queue[0]]))
  {
    assert ch.queue == [ch.queue[0]] + ch.queue[1..];
  }

  /** No discipline is asked of the tasks or the senders. */
  lemma NextKeepsInv(s: State, step: Step, s': State)
    requires Inv(s) && Next(s, step, s')
    ensures Inv(s')
  {
    SendersKnowKept(s, step, s');
    TasksKnowKept(s, step, s');
    ChannelsKept(s, step, s');
    ExecOkKept(s, step, s');
    FinishedOnceKept(s, step, s');
    forall c | c in s'.chans
      ensures WakerNoticed(s', c) && IsFifo(s'.chans[c])
    {
      assert WakerNoticed(s, c) && IsFifo(s.chans[c]);
      WakerNoticedKept(s, step, s', c);
      FifoKept(s, step, s', c);
    }
  }

  /** The executor's task takes a message from channel `c`. */
  ghost predicate PopsFrom(s: State, step: Step, c: Channel) {
    && step.PollPop? && s.exec.Polling? && s.exec.task in s.tasks && s.tasks[s.exec.task] == Awaiting(c)
    && c in s.chans && s.chans[c].queue != []
  }

  lemma SentByPush(s: State, step: Step, s': State, c: Channel)
    requires WellFormed(s) && Next(s, step, s') && c in s.chans
    ensures c in s'.chans
    ensures s'.chans[c].sent == s.chans[c].sent + if step.SendPush? && step.channel == c then [step.message] else []
  {
  }

  lemma ReceivedByPop(s: State, step: Step, s': State, c: Channel)
    requires WellFormed(s) && Next(s, step, s') && c in s.chans
    ensures c in s'.chans
    ensures |s'.chans[c].received| == |s.chans[c].received| + if PopsFrom(s, step, c) then 1 else 0
  {
  }

  // ---------------------------------------------------------------- who will be polled, and who is evicted

  /** Task `t` is scheduled, being polled, or will be scheduled by a message on the channel it awaits. */
  ghost predicate WillBePolled(s: State, t: Task)
    requires t in s.tasks
  {
    || t in s.runQueue
    || Executing(s, t)
    || (s.tasks[t].Awaiting? && var c := s.tasks[t].channel;
        (c in s.chans && s.chans[c].waker == Holds(t)) || WakePending(s, c, t))
  }

  ghost predicate AllPolled(s: State) {
    forall t {:trigger WillBePolled(s, t)} :: t in s.tasks && !s.tasks[t].Finished? ==> WillBePolled(s, t)
  }

  /** No message on the channel that `t` awaits will schedule it. */
  ghost predicate Unheard(s: State, t: Task) {
    t in s.tasks && s.tasks[t].Awaiting? && !WillBePolled(s, t)
  }

  /**
    The step stores a waker over that of another task which still awaits the channel and is not scheduled.
    All of this can be seen in the slot, the task and the run queue before the step.
   */
  ghost predicate Evicts(s: State, step: Step) {
    && step.PollRegister? && s.exec.Registering? && s.exec.channel in s.chans
    && var slot := s.chans[s.exec.channel].waker;
    && slot.Holds? && slot.task != s.exec.task
    && slot.task in s.tasks && s.tasks[slot.task] == Awaiting(s.exec.channel) && slot.task !in s.runQueue
  }

  ghost function Evicted(s: State): Task
    requires Evicts(s, PollRegister)
  {
    s.chans[s.exec.channel].waker.task
  }

  ghost predicate EvictsTask(s: State, step: Step, t: Task) {
    Evicts(s, step) && Evicted(s) == t
  }

  lemma WillBePolledKept(s: State, step: Step, s': State, t: Task)
    requires WellFormed(s) && ExecOk(s) && Next(s, step, s')
    requires t in s.tasks && WillBePolled(s, t) && t in s'.tasks && !s'.tasks[t].Finished?
    requires !EvictsTask(s, step, t)
    ensures WillBePolled(s', t)
  {
    if s.tasks[t].Awaiting? && WakePending(s, s.tasks[t].channel, t) {
      var a :| a in s.senders && s.senders[a] == Waking(s.tasks[t].channel, t);
      assert s'.senders[a] == Waking(s.tasks[t].channel, t) || t in s'.runQueue;
    }
    if step.SendTake? && s.tasks[t].Awaiting? && s'.senders[step.agent] == Waking(s.tasks[t].channel, t) {
      assert WakePending(s', s.tasks[t].channel, t);
    }
    if step.NextTask? && t in s.runQueue && s.runQueue[0] != t {
      assert t in s.runQueue[1..];
    }
  }

  lemma EvictedIsUnheard(s: State, s': State)
    requires WellFormed(s) && Evicts(s, PollRegister) && Next(s, PollRegister, s')
    ensures Unheard(s', Evicted(s)) && s'.tasks[Evicted(s)] == Awaiting(s.exec.channel)
  {
    assert forall a :: a in s.senders && s.senders[a].Waking? ==> s.senders[a].channel != s.exec.channel;
  }

  /** A step makes a task unreachable exactly when it evicts. */
  lemma StepLosesIffEvicts(s: State, step: Step, s': State)
    requires Inv(s) && AllPolled(s) && Next(s, step, s')
    ensures AllPolled(s') <==> !Evicts(s, step)
  {
    if Evicts(s, step) {
      EvictedIsUnheard(s, s');
    } else {
      forall t | t in s'.tasks && !s'.tasks[t].Finished?
        ensures WillBePolled(s', t)
      {
        if t in s.tasks && s.tasks[t].Finished? {
          FinishedStays(s, step, s', t);
        } else if t in s.tasks {
          assert WillBePolled(s, t);
          WillBePolledKept(s, step, s', t);
        }
      }
    }
  }

  lemma FinishedStays(s: State, step: Step, s': State, t: Task)
    requires WellFormed(s) && ExecOk(s) && Next(s, step, s') && t in s.tasks && s.tasks[t].Finished?
    ensures t in s'.tasks && s'.tasks[t].Finished?
  {
  }

  /** The step schedules `t` by accident: for no reason, or with a waker that `t` left in another channel. */
  ghost predicate Strays(s: State, step: Step, t: Task) {
    || step == SpuriousWake(t)
    || (step.SendWake? && step.agent in s.senders && s.senders[step.agent].Waking? && s.senders[step.agent].task == t)
  }

  lemma NotScheduled(s: State, step: Step, s': State, t: Task)
    requires WellFormed(s) && Unheard(s, t) && Next(s, step, s') && !Strays(s, step, t)
    ensures t !in s'.runQueue && !Executing(s', t) && t in s'.tasks && s'.tasks[t] == s.tasks[t]
  {
  }

  lemma WakerStaysAway(s: State, step: Step, s': State, t: Task)
    requires WellFormed(s) && Unheard(s, t) && Next(s, step, s')
    ensures var c := s.tasks[t].channel; c in s'.chans && s'.chans[c].waker != Holds(t) && !WakePending(s', c, t)
  {
  }

  /** Whatever is sent, an unheard task stays unheard until it is scheduled by accident. */
  lemma UnheardStays(s: State, step: Step, s': State, t: Task)
    requires WellFormed(s) && Unheard(s, t) && Next(s, step, s') && !Strays(s, step, t)
    ensures Unheard(s', t) && s'.tasks[t] == s.tasks[t]
  {
    NotScheduled(s, step, s', t);
    WakerStaysAway(s, step, s', t);
  }

  lemma StraysSchedules(s: State, step: Step, s': State, t: Task)
    requires WellFormed(s) && Next(s, step, s') && Strays(s, step, t)
    ensures t in s'.runQueue
  {
  }
}
