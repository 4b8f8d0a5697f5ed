/**
  The channels and the executor over whole runs: what holds in every state of every
  interleaving, and exactly when a wake-up is lost.
 */
module AsyncRuns {
  import opened AsyncRuntime

  ghost predicate Initial(s: State) {
    && s.runQueue == [] && s.exec.NoTask? && s.results == [] && s.tasks == map[]
    && (forall c :: c in s.chans ==> s.chans[c] == Chan([], Empty, [], []))
    && (forall a :: a in s.senders ==> s.senders[a].Idle?)
  }

  /** `Next` is defined on well-formed states, which `RunInv` shows all of these to be. */
  ghost predicate IsRun(states: seq<State>, steps: seq<Step>) {
    && |states| == |steps| + 1 && Initial(states[0])
    && forall i {:trigger steps[i]} ::
      0 <= i < |steps| ==> WellFormed(states[i]) ==> Next(states[i], steps[i], states[i + 1])
  }

  /** The j-th step evicts `t`, and no later one before the i-th schedules `t` by accident. */
  ghost predicate EvictedSince(states: seq<State>, steps: seq<Step>, j: nat, i: nat, t: Task)
    requires j < i <= |steps| < |states|
  {
    && EvictsTask(states[j], steps[j], t)
    && forall k {:trigger steps[k]} :: j < k < i ==> !Strays(states[k], steps[k], t)
  }

  ghost predicate Lost(states: seq<State>, steps: seq<Step>, i: nat, t: Task)
    requires i <= |steps| < |states|
  {
    exists j: nat :: j < i && EvictedSince(states, steps, j, i, t)
  }

  ghost predicate NoEviction(states: seq<State>, steps: seq<Step>) {
    |steps| < |states| && forall j {:trigger steps[j]} :: 0 <= j < |steps| ==> !Evicts(states[j], steps[j])
  }

  lemma StartInv(s: State)
    requires Initial(s)
    ensures Inv(s) && AllPolled(s)
  {
  }

  lemma {:induction false} RunInv(states: seq<State>, steps: seq<Step>, i: nat)
    requires IsRun(states, steps) && i <= |steps|
    ensures Inv(states[i])
  {
    if i == 0 {
      StartInv(states[0]);
    } else {
      RunInv(states, steps, i - 1);
      assert Next(states[i - 1], steps[i - 1], states[i]);
      NextKeepsInv(states[i - 1], steps[i - 1], states[i]);
    }
  }

  /** Task `t` has not finished and nothing will poll it. */
  ghost predicate Missed(s: State, t: Task) {
    t in s.tasks && !s.tasks[t].Finished? && !WillBePolled(s, t)
  }

  lemma LostIsUnheard(states: seq<State>, steps: seq<Step>, i: nat, t: Task)
    requires IsRun(states, steps) && i < |steps| && Inv(states[i])
    requires Lost(states, steps, i, t) ==> Unheard(states[i], t)
    ensures Lost(states, steps, i + 1, t) ==> Unheard(states[i + 1], t)
  {
    if Lost(states, steps, i + 1, t) {
      var j: nat :| j < i + 1 && EvictedSince(states, steps, j, i + 1, t);
      assert Next(states[i], steps[i], states[i + 1]);
      if j == i {
        EvictedIsUnheard(states[i], states[i + 1]);
      } else {
        assert EvictedSince(states, steps, j, i, t);
        UnheardStays(states[i], steps[i], states[i + 1], t);
      }
    }
  }

  lemma MissedIsOld(s: State, step: Step, s': State, t: Task)
    requires Inv(s) && Next(s, step, s') && Missed(s', t) && !EvictsTask(s, step, t)
    ensures Missed(s, t) && !Strays(s, step, t)
  {
    if Strays(s, step, t) {
      StraysSchedules(s, step, s', t);
    }
    if t in s.tasks {
      if s.tasks[t].Finished? {
        FinishedStays(s, step, s', t);
      } else if WillBePolled(s, t) {
        WillBePolledKept(s, step, s', t);
      }
    }
  }

  lemma MissedIsLost(states: seq<State>, steps: seq<Step>, i: nat, t: Task)
    requires IsRun(states, steps) && i < |steps| && Inv(states[i])
    requires Missed(states[i], t) ==> Lost(states, steps, i, t)
    ensures Missed(states[i + 1], t) ==> Lost(states, steps, i + 1, t)
  {
    if Missed(states[i + 1], t) {
      assert Next(states[i], steps[i], states[i + 1]);
      if EvictsTask(states[i], steps[i], t) {
        assert EvictedSince(states, steps, i, i + 1, t);
      } else {
        MissedIsOld(states[i], steps[i], states[i + 1], t);
        var j: nat :| j < i && EvictedSince(states, steps, j, i, t);
        assert EvictedSince(states, steps, j, i + 1, t);
      }
    }
  }

  /**
    The exact condition, task by task and state by state: an unfinished task is out of reach if and only if it was
    evicted and has not been scheduled by accident since.  Evictions of other tasks do not matter.
   */
  lemma {:induction false} MissedIffLost(states: seq<State>, steps: seq<Step>, i: nat, t: Task)
    requires IsRun(states, steps) && i <= |steps|
    ensures Missed(states[i], t) <==> Lost(states, steps, i, t)
    ensures Lost(states, steps, i, t) ==> Unheard(states[i], t)
    decreases i
  {
    if i > 0 {
      MissedIffLost(states, steps, i - 1, t);
      RunInv(states, steps, i - 1);
      LostIsUnheard(states, steps, i - 1, t);
      MissedIsLost(states, steps, i - 1, t);
    }
  }

  /** All along a run every unfinished task can be reached, if and only if no step evicts. */
  lemma RunLosesIffEvicts(states: seq<State>, steps: seq<Step>)
    requires IsRun(states, steps)
    ensures (forall i :: 0 <= i < |states| ==> AllPolled(states[i])) <==> NoEviction(states, steps)
  {
    if NoEviction(states, steps) {
      forall i | 0 <= i < |states|
        ensures AllPolled(states[i])
      {
        forall t | t in states[i].tasks && !states[i].tasks[t].Finished?
          ensures WillBePolled(states[i], t)
        {
          MissedIffLost(states, steps, i, t);
        }
      }
    } else {
      var j :| 0 <= j < |steps| && Evicts(states[j], steps[j]);
      var t := Evicted(states[j]);
      assert EvictedSince(states, steps, j, j + 1, t);
      MissedIffLost(states, steps, j + 1, t);
      assert Missed(states[j + 1], t);
    }
  }

  /**
    A task that awaits a channel with a message in it, and that is not being polled, is scheduled, or a sender
    is about to schedule it, or a sender has yet to take its waker, if and only if it is not lost.
   */
  lemma NoLostWakeup(states: seq<State>, steps: seq<Step>, i: nat, t: Task)
    requires IsRun(states, steps) && i <= |steps|
    requires t in states[i].tasks && states[i].tasks[t].Awaiting? && !Executing(states[i], t)
    requires states[i].tasks[t].channel in states[i].chans && states[i].chans[states[i].tasks[t].channel].queue != []
    ensures var s, c := states[i], states[i].tasks[t].channel;
      !Lost(states, steps, i, t) <==>
        t in s.runQueue || WakePending(s, c, t) || (s.chans[c].waker == Holds(t) && TakePending(s, c))
  {
    RunInv(states, steps, i);
    MissedIffLost(states, steps, i, t);
    assert WakerNoticed(states[i], states[i].tasks[t].channel);
  }

  /** When nothing is left to do, every unfinished task waits, and on an empty channel unless it is lost. */
  lemma QuiescentMeansDrained(states: seq<State>, steps: seq<Step>, i: nat, t: Task)
    requires IsRun(states, steps) && i <= |steps|
    requires states[i].runQueue == [] && states[i].exec.NoTask?
    requires forall a :: a in states[i].senders ==> states[i].senders[a].Idle?
    requires t in states[i].tasks && !states[i].tasks[t].Finished?
    ensures states[i].tasks[t].Awaiting? && states[i].tasks[t].channel in states[i].chans
    ensures !Lost(states, steps, i, t) ==> states[i].chans[states[i].tasks[t].channel].queue == []
  {
    RunInv(states, steps, i);
    MissedIffLost(states, steps, i, t);
    if !Lost(states, steps, i, t) {
      assert WakerNoticed(states[i], states[i].tasks[t].channel);
    }
  }

  /** A result is returned once per task, and a finished task stays finished: its future is gone. */
  lemma ResultOnce(states: seq<State>, steps: seq<Step>, i: nat, t: Task)
    requires IsRun(states, steps) && i < |steps|
    ensures FinishedOnce(states[i])
    ensures t in states[i].tasks && states[i].tasks[t].Finished? ==>
      && t in states[i + 1].tasks && states[i + 1].tasks[t].Finished?
      && !Executing(states[i], t) && !Executing(states[i + 1], t)
  {
    RunInv(states, steps, i);
    RunInv(states, steps, i + 1);
    assert Next(states[i], steps[i], states[i + 1]);
    if t in states[i].tasks && states[i].tasks[t].Finished? {
      FinishedStays(states[i], steps[i], states[i + 1], t);
    }
  }

  /** In every state of every run what was received on a channel is the beginning of what was sent. */
  lemma ReceivedInOrder(states: seq<State>, steps: seq<Step>, i: nat, c: Channel)
    requires IsRun(states, steps) && i <= |steps| && c in states[i].chans
    ensures states[i].chans[c].sent == states[i].chans[c].received + states[i].chans[c].queue
  {
    RunInv(states, steps, i);
    assert IsFifo(states[i].chans[c]);
  }

  /** The locks cannot deadlock: whoever is in the middle of an operation can be advanced. */
  lemma SomebodyCanMove(s: State)
    requires WellFormed(s) && ExecOk(s)
    requires !s.exec.NoTask? || exists a :: a in s.senders && !s.senders[a].Idle?
    ensures exists step :: Enabled(s, step) && !step.SpuriousWake? && !step.Spawn? && !step.SendPush?
  {
    if a :| a in s.senders && s.senders[a].Waking? {
      assert Enabled(s, SendWake(a));
    } else if a :| a in s.senders && s.senders[a].Pushed? {
      assert Enabled(s, SendTake(a));
    } else if s.exec.Registering? {
      assert Enabled(s, PollRegister);
    } else if s.tasks[s.exec.task].Working? {
      assert Enabled(s, Work(Finished));
    } else {
      assert Enabled(s, PollPop);
    }
  }
}
