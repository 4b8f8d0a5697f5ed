/**
  What an eviction costs: the evicted task is told of no message any more, and a run
  from the start in which that happens.
 */
module LostWakeups {
  import opened AsyncRuntime
  import opened AsyncRuns

  /** The next message on the channel is lost on the evicted task: it waits in the queue and nobody is told. */
  lemma MessageIsLost(s: State, t: Task, a: Agent, m: Message, s': State)
    requires WellFormed(s) && Unheard(s, t) && Next(s, SendPush(a, s.tasks[t].channel, m), s')
    ensures Unheard(s', t) && s'.tasks[t] == s.tasks[t] && s'.chans[s.tasks[t].channel].queue != []
  {
  }

  /** Nothing that is queued, registered or under way will ever schedule `t`. */
  ghost predicate Forgotten(s: State, t: Task) {
    && Unheard(s, t)
    && (forall c :: c in s.chans ==> s.chans[c].waker != Holds(t))
    && (forall a :: a in s.senders && s.senders[a].Waking? ==> s.senders[a].task != t)
  }

  /** An evicted task that left no other waker behind is forgotten. */
  lemma EvictedIsForgotten(s: State, s': State)
    requires WellFormed(s) && Evicts(s, PollRegister) && Next(s, PollRegister, s')
    requires forall c :: c in s.chans && c != s.exec.channel ==> s.chans[c].waker != Holds(Evicted(s))
    requires forall a :: a in s.senders && s.senders[a].Waking? ==> s.senders[a].task != Evicted(s)
    ensures Forgotten(s', Evicted(s))
  {
    EvictedIsUnheard(s, s');
  }

  /** A forgotten task stays forgotten, whatever is sent, unless it is woken for no reason. */
  lemma ForgottenForEver(s: State, step: Step, s': State, t: Task)
    requires WellFormed(s) && Forgotten(s, t) && Next(s, step, s') && step != SpuriousWake(t)
    ensures Forgotten(s', t)
  {
    UnheardStays(s, step, s', t);
  }

  // ---------------------------------------------------------------- a run that loses a message

  /** One channel and one idle sender. */
  ghost function Shared(slot: TaskSlot, runQueue: seq<Task>, tasks: map<Task, TaskPc>, exec: ExecPc): State {
    State(map[0 := Chan([], slot, [], [])], map[0 := Idle], runQueue, tasks, exec, [])
  }

  ghost predicate Leads(s: State, step: Step, s': State) {
    WellFormed(s) && Next(s, step, s')
  }

  lemma SpawnLeads(run: seq<Task>, tasks: map<Task, TaskPc>, t: Task, run': seq<Task>, tasks': map<Task, TaskPc>)
    requires (forall u :: u in run ==> u in tasks) && (forall u :: u in tasks ==> tasks[u] == Working)
    requires t !in tasks && run' == run + [t] && tasks' == tasks[t := Working]
    ensures Leads(Shared(Empty, run, tasks, NoTask), Spawn(t), Shared(Empty, run', tasks', NoTask))
  {
  }

  /** What holds of the tasks throughout the example. */
  ghost predicate Known(slot: TaskSlot, run: seq<Task>, tasks: map<Task, TaskPc>) {
    && (forall u :: u in run ==> u in tasks) && (slot.Holds? ==> slot.task in tasks)
    && (forall u :: u in tasks && tasks[u].Awaiting? ==> tasks[u].channel == 0)
  }

  lemma TakeLeads(slot: TaskSlot, run: seq<Task>, tasks: map<Task, TaskPc>, t: Task, run': seq<Task>)
    requires Known(slot, run, tasks) && run != [] && run[0] == t && run' == run[1..] && tasks[t] == Working
    ensures Leads(Shared(slot, run, tasks, NoTask), NextTask, Shared(slot, run', tasks, Polling(t)))
  {
  }

  lemma AwaitLeads(slot: TaskSlot, run: seq<Task>, tasks: map<Task, TaskPc>, t: Task, tasks': map<Task, TaskPc>)
    requires Known(slot, run, tasks) && t in tasks && tasks[t] == Working && tasks' == tasks[t := Awaiting(0)]
    ensures Leads(Shared(slot, run, tasks, Polling(t)), Work(Awaiting(0)), Shared(slot, run, tasks', Polling(t)))
  {
  }

  lemma PopLeads(slot: TaskSlot, run: seq<Task>, tasks: map<Task, TaskPc>, t: Task)
    requires Known(slot, run, tasks) && t in tasks && tasks[t] == Awaiting(0)
    ensures Leads(Shared(slot, run, tasks, Polling(t)), PollPop, Shared(slot, run, tasks, Registering(t, 0)))
  {
  }

  lemma RegisterLeads(slot: TaskSlot, run: seq<Task>, tasks: map<Task, TaskPc>, t: Task)
    requires Known(slot, run, tasks) && t in tasks
    ensures Leads(Shared(slot, run, tasks, Registering(t, 0)), PollRegister, Shared(Holds(t), run, tasks, NoTask))
  {
    var s := Shared(slot, run, tasks, Registering(t, 0));
    assert s.chans[0 := s.chans[0].(waker := Holds(t))] == Shared(Holds(t), run, tasks, NoTask).chans;
  }

  /** Both tasks are spawned; each is taken, awaits the channel, finds it empty and registers; a message is sent. */
  ghost function LosingStep(i: nat): Step {
    if i == 0 then Spawn(0) else if i == 1 then Spawn(1)
    else if i == 2 || i == 6 then NextTask
    else if i == 3 || i == 7 then Work(Awaiting(0))
    else if i == 4 || i == 8 then PollPop
    else if i == 5 || i == 9 then PollRegister
    else SendPush(0, 0, 7)
  }

  ghost function LosingState(i: nat): State {
    var begun: map<Task, TaskPc> := map[0 := Working, 1 := Working];
    var half: map<Task, TaskPc> := map[0 := Awaiting(0), 1 := Working];
    var full: map<Task, TaskPc> := map[0 := Awaiting(0), 1 := Awaiting(0)];
    if i == 0 then Shared(Empty, [], map[], NoTask)
    else if i == 1 then Shared(Empty, [0], map[0 := Working], NoTask)
    else if i == 2 then Shared(Empty, [0, 1], begun, NoTask)
    else if i == 3 then Shared(Empty, [1], begun, Polling(0))
    else if i == 4 then Shared(Empty, [1], half, Polling(0))
    else if i == 5 then Shared(Empty, [1], half, Registering(0, 0))
    else if i == 6 then Shared(Holds(0), [1], half, NoTask)
    else if i == 7 then Shared(Holds(0), [], half, Polling(1))
    else if i == 8 then Shared(Holds(0), [], full, Polling(1))
    else if i == 9 then Shared(Holds(0), [], full, Registering(1, 0))
    else if i == 10 then Shared(Holds(1), [], full, NoTask)
    else State(map[0 := Chan([7], Holds(1), [7], [])], map[0 := Pushed(0)], [], full, NoTask, [])
  }

  lemma LosingStepLeads(i: nat)
    requires i < 11
    ensures Leads(LosingState(i), LosingStep(i), LosingState(i + 1))
  {
    var begun: map<Task, TaskPc> := map[0 := Working, 1 := Working];
    var half: map<Task, TaskPc> := map[0 := Awaiting(0), 1 := Working];
    var full: map<Task, TaskPc> := map[0 := Awaiting(0), 1 := Awaiting(0)];
    if i == 0 { SpawnLeads([], map[], 0, [0], map[0 := Working]); }
    else if i == 1 { SpawnLeads([0], map[0 := Working], 1, [0, 1], begun); }
    else if i == 2 { TakeLeads(Empty, [0, 1], begun, 0, [1]); }
    else if i == 3 { AwaitLeads(Empty, [1], begun, 0, half); }
    else if i == 4 { PopLeads(Empty, [1], half, 0); }
    else if i == 5 { RegisterLeads(Empty, [1], half, 0); }
    else if i == 6 { TakeLeads(Holds(0), [1], half, 1, []); }
    else if i == 7 { AwaitLeads(Holds(0), [], half, 1, full); }
    else if i == 8 { PopLeads(Holds(0), [], full, 1); }
    else if i == 9 { RegisterLeads(Holds(0), [], full, 1); }
    else { SendLeads(full); }
  }

  lemma SendLeads(tasks: map<Task, TaskPc>)
    requires Known(Holds(1), [], tasks) && 1 in tasks
    ensures Leads(Shared(Holds(1), [], tasks, NoTask), SendPush(0, 0, 7),
                  State(map[0 := Chan([7], Holds(1), [7], [])], map[0 := Pushed(0)], [], tasks, NoTask, []))
  {
    var s := Shared(Holds(1), [], tasks, NoTask);
    assert s.senders[0 := Pushed(0)] == map[0 := Pushed(0)];
    assert [] + [7] == [7];
    assert s.chans[0 := Chan([7], Holds(1), [7], [])] == map[0 := Chan([7], Holds(1), [7], [])];
  }

  lemma RunOfLeads(states: seq<State>, steps: seq<Step>)
    requires |states| == |steps| + 1 && Initial(states[0])
    requires forall i :: 0 <= i < |steps| ==> Leads(states[i], steps[i], states[i + 1])
    ensures IsRun(states, steps)
  {
  }

  lemma LosingIsRun(states: seq<State>, steps: seq<Step>)
    requires |states| == 12 && forall i :: 0 <= i < 12 ==> states[i] == LosingState(i)
    requires |steps| == 11 && forall i :: 0 <= i < 11 ==> steps[i] == LosingStep(i)
    ensures IsRun(states, steps)
  {
    assert Initial(LosingState(0));
    forall i | 0 <= i < 11
      ensures Leads(states[i], steps[i], states[i + 1])
    {
      LosingStepLeads(i);
    }
    RunOfLeads(states, steps);
  }

  /**
    Two tasks await one channel: both register, the second over the first, and a message sent then
    finds the first awaiting it with nothing left that would ever schedule it.
   */
  lemma LosingRun() returns (states: seq<State>, steps: seq<Step>)
    ensures IsRun(states, steps) && |steps| == 11
    ensures Evicts(states[9], steps[9])
    ensures var s := states[11];
      Forgotten(s, 0) && s.tasks[0] == Awaiting(0) && 0 in s.chans && s.chans[0].queue == [7]
  {
    states := seq(12, i requires 0 <= i < 12 => LosingState(i));
    steps := seq(11, i requires 0 <= i < 11 => LosingStep(i));
    LosingIsRun(states, steps);
    assert states[9] == LosingState(9) && steps[9] == PollRegister && states[11] == LosingState(11);
  }
}
