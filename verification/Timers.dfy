/**
  The timer heap: expiry in timeout order, re-arming of the task-switch timer, and the period at which
  preemption is signalled.
 */
module Timers {
  import opened Common
  import opened MessageQueues

  const TASK_TIMER_VALUE: nat := 0
  const TIMER_FREQ: nat := 100
  const TASK_TIMER_PERIOD: nat := TIMER_FREQ / 50

  datatype Timer = Timer(timeout: nat, value: nat) {
    predicate IsOver(now: nat) {
      timeout < now
    }

    predicate IsTask() {
      value == TASK_TIMER_VALUE
    }
  }

  function Rearm(now: nat): Timer {
    Timer(now + TASK_TIMER_PERIOD, TASK_TIMER_VALUE)
  }

  // ---------------------------------------------------------------- one tick, as a relation on heaps

  ghost predicate Earliest(t: Timer, heap: multiset<Timer>) {
    t in heap && forall u :: u in heap ==> t.timeout <= u.timeout
  }

  function TaskCount(ts: seq<Timer>): nat {
    if ts == [] then 0
    else TaskCount(ts[..|ts| - 1]) + (if ts[|ts| - 1].IsTask() then 1 else 0)
  }

  /** The messages that the expired timers ask for: one per user timer. */
  function UserMessages(ts: seq<Timer>): seq<Message> {
    if ts == [] then []
    else UserMessages(ts[..|ts| - 1]) + (if ts[|ts| - 1].IsTask() then [] else [TimerTimeout(ts[|ts| - 1].value)])
  }

  /** Part of the way: `left` is still in the heap, `popped` is done, `rearmed` has come back. */
  datatype Progress = Progress(left: multiset<Timer>, rearmed: multiset<Timer>, popped: seq<Timer>)

  predicate InOrder(t: Timer, u: Timer) {
    t.timeout <= u.timeout
  }

  ghost predicate Balanced(heap: multiset<Timer>, p: Progress) {
    heap == p.left + multiset(p.popped)
  }

  ghost predicate RearmedRight(now: nat, p: Progress) {
    p.rearmed == multiset{}[Rearm(now) := TaskCount(p.popped)]
  }

  ghost predicate AllOver(now: nat, p: Progress) {
    forall i {:trigger p.popped[i].IsOver(now)} :: 0 <= i < |p.popped| ==> p.popped[i].IsOver(now)
  }

  ghost predicate Ordered(p: Progress) {
    && (forall i, j {:trigger InOrder(p.popped[i], p.popped[j])} ::
          0 <= i < j < |p.popped| ==> InOrder(p.popped[i], p.popped[j]))
    && (forall i, t {:trigger InOrder(p.popped[i], t)} ::
          0 <= i < |p.popped| && t in p.left ==> InOrder(p.popped[i], t))
  }

  /** What is popped is expired, in order, and earlier than all that is left. */
  ghost predicate Underway(heap: multiset<Timer>, now: nat, p: Progress) {
    Balanced(heap, p) && RearmedRight(now, p) && AllOver(now, p) && Ordered(p)
  }

  ghost predicate SomeOver(heap: multiset<Timer>, now: nat) {
    exists t {:trigger t.IsOver(now)} :: t in heap && t.IsOver(now)
  }

  /** A whole tick to time `now` turns `heap` into `next`: nothing that is left is over. */
  ghost predicate Ticked(heap: multiset<Timer>, now: nat, p: Progress, next: multiset<Timer>) {
    && Underway(heap, now, p) && next == p.left + p.rearmed
    && !SomeOver(p.left, now)
  }

  function FirstOf(s: seq<Message>, n: nat): seq<Message> {
    if |s| <= n then s else s[..n]
  }

  lemma {:induction false} EarliestExists(heap: multiset<Timer>) returns (t: Timer)
    requires heap != multiset{}
    ensures Earliest(t, heap)
    decreases |heap|
  {
    t :| t in heap;
    var rest := heap - multiset{t};
    if rest != multiset{} {
      var u := EarliestExists(rest);
      assert forall v :: v in heap ==> v == t || v in rest;
      t := if t.timeout <= u.timeout then t else u;
    } else {
      assert forall v :: v in heap ==> v == t || v in rest;
    }
  }

  // ---------------------------------------------------------------- the loop of one tick

  ghost function AfterPop(p: Progress, now: nat, top: Timer): Progress {
    Progress(p.left - multiset{top},
             p.rearmed + (if top.IsTask() then multiset{Rearm(now)} else multiset{}),
             p.popped + [top])
  }

  /** A timer that is over is never one that this very tick has re-armed. */
  lemma TopIsLeft(heap: multiset<Timer>, now: nat, p: Progress, top: Timer)
    requires Underway(heap, now, p) && Earliest(top, p.left + p.rearmed) && top.IsOver(now)
    ensures Earliest(top, p.left) && top != Rearm(now)
  {
    assert forall t :: t in p.left ==> t in p.left + p.rearmed;
  }

  lemma PopMoves(heap: multiset<Timer>, left: multiset<Timer>, popped: seq<Timer>, top: Timer)
    requires heap == left + multiset(popped) && top in left
    ensures heap == left - multiset{top} + multiset(popped + [top]) && |popped| < |heap|
  {
    assert left == left - multiset{top} + multiset{top};
    assert multiset(popped + [top]) == multiset(popped) + multiset{top};
    assert |heap| == |left| + |popped|;
  }

  lemma PopStaysBalanced(heap: multiset<Timer>, now: nat, p: Progress, top: Timer)
    requires Balanced(heap, p) && top in p.left
    ensures Balanced(heap, AfterPop(p, now, top))
  {
    PopMoves(heap, p.left, p.popped, top);
  }

  lemma RearmedOneMore(now: nat, n: nat)
    ensures multiset{}[Rearm(now) := n] + multiset{Rearm(now)} == multiset{}[Rearm(now) := n + 1]
    ensures multiset{}[Rearm(now) := n] + multiset{} == multiset{}[Rearm(now) := n]
  {
  }

  lemma PopRearms(now: nat, p: Progress, top: Timer)
    requires RearmedRight(now, p)
    ensures RearmedRight(now, AfterPop(p, now, top))
  {
    OneMore(p.popped, top);
    RearmedOneMore(now, TaskCount(p.popped));
  }

  lemma PopStaysOver(now: nat, p: Progress, top: Timer)
    requires AllOver(now, p) && top.IsOver(now)
    ensures AllOver(now, AfterPop(p, now, top))
  {
    assert forall i :: 0 <= i < |p.popped| ==> p.popped[i].IsOver(now);
  }

  /** What is popped next comes after what was popped before, and before what is left. */
  lemma PopStaysOrdered(now: nat, p: Progress, top: Timer)
    requires Ordered(p) && Earliest(top, p.left)
    ensures Ordered(AfterPop(p, now, top))
  {
    var q := AfterPop(p, now, top);
    forall i, t | 0 <= i < |q.popped| && t in q.left
      ensures InOrder(q.popped[i], t)
    {
      assert i < |p.popped| ==> InOrder(p.popped[i], t);
    }
    forall i, j | 0 <= i < j < |q.popped|
      ensures InOrder(q.popped[i], q.popped[j])
    {
      assert j < |p.popped| ==> InOrder(p.popped[i], p.popped[j]);
      assert j == |p.popped| ==> InOrder(p.popped[i], top);
    }
  }

  lemma PopKeepsOrder(heap: multiset<Timer>, now: nat, p: Progress, top: Timer)
    requires Underway(heap, now, p) && Earliest(top, p.left) && top.IsOver(now)
    ensures Underway(heap, now, AfterPop(p, now, top))
  {
    PopStaysBalanced(heap, now, p, top);
    PopRearms(now, p, top);
    PopStaysOver(now, p, top);
    PopStaysOrdered(now, p, top);
  }

  lemma PopTop(heap: multiset<Timer>, now: nat, p: Progress, top: Timer)
    requires Underway(heap, now, p) && Earliest(top, p.left + p.rearmed) && top.IsOver(now)
    ensures Underway(heap, now, AfterPop(p, now, top)) && |p.popped| < |heap|
    ensures AfterPop(p, now, top).left + AfterPop(p, now, top).rearmed
         == p.left + p.rearmed - multiset{top} + (if top.IsTask() then multiset{Rearm(now)} else multiset{})
  {
    TopIsLeft(heap, now, p, top);
    PopMoves(heap, p.left, p.popped, top);
    PopKeepsOrder(heap, now, p, top);
  }

  lemma OneMore(popped: seq<Timer>, top: Timer)
    ensures UserMessages(popped + [top])
         == if top.IsTask() then UserMessages(popped) else UserMessages(popped) + [TimerTimeout(top.value)]
    ensures TaskCount(popped + [top]) == TaskCount(popped) + (if top.IsTask() then 1 else 0)
  {
    assert (popped + [top])[..|popped|] == popped;
  }

  lemma NoneOver(left: multiset<Timer>, rearmed: multiset<Timer>, now: nat)
    requires !SomeOver(left + rearmed, now)
    ensures !SomeOver(left, now)
  {
    assert forall t :: t in left ==> t in left + rearmed;
  }

  /** The queue after one more message was offered to it. */
  lemma FirstOfLonger(queue: seq<Message>, s: seq<Message>, one: Message, free: nat)
    ensures queue + FirstOf(s + [one], free)
         == if |queue + FirstOf(s, free)| < |queue| + free then queue + FirstOf(s, free) + [one]
            else queue + FirstOf(s, free)
  {
  }

  /** The queue held `queue` and was then offered `sent`: the part that fitted is behind it. */
  ghost predicate Holds(events: MessageQueue, queue: seq<Message>, sent: seq<Message>)
    reads events, events.data
  {
    && events.Valid() && |queue| <= events.data.Length
    && events.Contents() == queue + FirstOf(sent, events.data.Length - |queue|)
  }

  /** A push whose refusal is ignored. */
  method Offer(events: MessageQueue, msg: Message, ghost queue: seq<Message>, ghost sent: seq<Message>)
    requires Holds(events, queue, sent)
    modifies events`cnt, events`writePos, events.data
    ensures Holds(events, queue, sent + [msg])
  {
    FirstOfLonger(queue, sent, msg, events.data.Length - |queue|);
    var _ := events.Push(msg);
  }

  /** The message of one expired timer, if it is a user's. */
  method Tell(events: MessageQueue, top: Timer, ghost queue: seq<Message>, ghost popped: seq<Timer>)
    requires Holds(events, queue, UserMessages(popped))
    modifies events`cnt, events`writePos, events.data
    ensures Holds(events, queue, UserMessages(popped + [top]))
    ensures TaskCount(popped + [top]) == TaskCount(popped) + (if top.value == TASK_TIMER_VALUE then 1 else 0)
  {
    OneMore(popped, top);
    if top.value != TASK_TIMER_VALUE {
      Offer(events, TimerTimeout(top.value), queue, UserMessages(popped));
    }
  }

  class TimerManager {
    var tick: nat
    var timers: multiset<Timer>

    constructor ()
      ensures tick == 0 && timers == multiset{}
    {
      tick, timers := 0, multiset{};
    }

    method AddTimer(timeout: nat, value: nat)
      modifies this`timers
      ensures timers == old(timers) + multiset{Timer(timeout, value)}
    {
      timers := timers + multiset{Timer(timeout, value)};
    }

    /** The heap's `pop`: one of the timers with the least timeout. */
    method Pop() returns (t: Timer)
      requires timers != multiset{}
      modifies this`timers
      ensures Earliest(t, old(timers)) && timers == old(timers) - multiset{t}
    {
      ghost var e := EarliestExists(timers);
      t :| t in timers && forall u :: u in timers ==> t.timeout <= u.timeout;
      timers := timers - multiset{t};
    }

    method TopIsOver() returns (over: bool)
      ensures over <==> SomeOver(timers, tick)
    {
      if timers == multiset{} {
        return false;
      }
      ghost var e := EarliestExists(timers);
      var t :| t in timers && forall u :: u in timers ==> t.timeout <= u.timeout;
      over := t.IsOver(tick);
    }

    /** The heap's part of one turn: the earliest timer is popped and, when it is the task timer, re-armed. */
    method PopAndRearm(ghost heap: multiset<Timer>, ghost p: Progress) returns (top: Timer, ghost q: Progress)
      requires Underway(heap, tick, p) && timers == p.left + p.rearmed
      requires SomeOver(timers, tick)
      modifies this`timers
      ensures Underway(heap, tick, q) && timers == q.left + q.rearmed
      ensures q.popped == p.popped + [top] && |q.popped| <= |heap|
    {
      top := Pop();
      PopTop(heap, tick, p, top);
      q := AfterPop(p, tick, top);
      if top.value == TASK_TIMER_VALUE {
        timers := timers + multiset{Rearm(tick)};
      }
    }

    /** One whole turn of the loop. */
    method FireTop(events: MessageQueue, ghost heap: multiset<Timer>, ghost p: Progress, ghost queue: seq<Message>)
      returns (task: bool, ghost q: Progress)
      requires Underway(heap, tick, p) && timers == p.left + p.rearmed
      requires SomeOver(timers, tick)
      requires Holds(events, queue, UserMessages(p.popped))
      modifies this`timers, events`cnt, events`writePos, events.data
      ensures Underway(heap, tick, q) && timers == q.left + q.rearmed && |p.popped| < |q.popped| <= |heap|
      ensures Holds(events, queue, UserMessages(q.popped))
      ensures TaskCount(q.popped) == TaskCount(p.popped) + (if task then 1 else 0)
    {
      var top;
      top, q := PopAndRearm(heap, p);
      task := top.value == TASK_TIMER_VALUE;
      Tell(events, top, queue, p.popped);
    }

    /** The loop: timers are fired until none is over. */
    method FireAll(events: MessageQueue, ghost queue: seq<Message>) returns (taskTimerTimeout: bool, ghost p: Progress)
      requires Holds(events, queue, [])
      modifies this`timers, events`cnt, events`writePos, events.data
      ensures Ticked(old(timers), tick, p, timers)
      ensures Holds(events, queue, UserMessages(p.popped))
      ensures taskTimerTimeout <==> TaskCount(p.popped) > 0
    {
      taskTimerTimeout, p := false, Progress(timers, multiset{}, []);
      var more := TopIsOver();
      while more
        invariant more <==> SomeOver(timers, tick)
        invariant Underway(old(timers), tick, p) && timers == p.left + p.rearmed
        invariant Holds(events, queue, UserMessages(p.popped))
        invariant taskTimerTimeout <==> TaskCount(p.popped) > 0
        decreases |old(timers)| - |p.popped|
      {
        var task;
        task, p := FireTop(events, old(timers), p, queue);
        if task {
          taskTimerTimeout := true;
        }
        more := TopIsOver();
      }
      NoneOver(p.left, p.rearmed, tick);
    }

    method Tick(elapsed: nat, events: MessageQueue) returns (taskTimerTimeout: bool, ghost p: Progress)
      requires events.Valid()
      modifies this, events`cnt, events`writePos, events.data
      ensures tick == old(tick) + elapsed
      ensures Ticked(old(timers), tick, p, timers)
      ensures Holds(events, old(events.Contents()), UserMessages(p.popped))
      ensures taskTimerTimeout <==> TaskCount(p.popped) > 0
    {
      tick := tick + elapsed;
      taskTimerTimeout, p := FireAll(events, events.Contents());
    }
  }

  /** The kernel's start: one task timer, one period away. */
  method InitializeTimer() returns (t: TimerManager)
    ensures fresh(t) && t.tick == 0 && t.timers == multiset{Rearm(0)}
  {
    t := new TimerManager();
    t.AddTimer(t.tick + TASK_TIMER_PERIOD, TASK_TIMER_VALUE);
  }

  // ---------------------------------------------------------------- what one tick guarantees

  lemma TickLeavesNoneOver(heap: multiset<Timer>, now: nat, p: Progress, next: multiset<Timer>)
    requires Ticked(heap, now, p, next)
    ensures forall t :: t in next ==> now <= t.timeout
  {
    forall t | t in next
      ensures now <= t.timeout
    {
      assert t in p.left ==> !t.IsOver(now);
    }
  }

  /** How many task timers a heap holds. */
  ghost function TaskTimers(heap: multiset<Timer>): nat
    decreases |heap|
  {
    if heap == multiset{} then 0
    else
      var t :| t in heap;
      TaskTimers(heap - multiset{t}) + (if t.IsTask() then 1 else 0)
  }

  lemma SwapOne(heap: multiset<Timer>, t: Timer, u: Timer)
    requires u in heap + multiset{t}
    ensures u == t ==> heap + multiset{t} - multiset{u} == heap
    ensures u != t ==> u in heap && |heap - multiset{u}| < |heap|
    ensures u != t ==> heap - multiset{u} + multiset{u} == heap
    ensures u != t ==> heap + multiset{t} - multiset{u} == heap - multiset{u} + multiset{t}
  {
  }

  lemma {:induction false} TaskTimersOfOneMore(heap: multiset<Timer>, t: Timer)
    ensures TaskTimers(heap + multiset{t}) == TaskTimers(heap) + (if t.IsTask() then 1 else 0)
    decreases |heap|
  {
    var more := heap + multiset{t};
    var u :| u in more && TaskTimers(more) == TaskTimers(more - multiset{u}) + (if u.IsTask() then 1 else 0);
    SwapOne(heap, t, u);
    if u != t {
      var less := heap - multiset{u};
      TaskTimersOfOneMore(less, t);
      TaskTimersOfOneMore(less, u);
    }
  }

  lemma {:induction false} TaskTimersOfMany(heap: multiset<Timer>, ts: seq<Timer>)
    ensures TaskTimers(heap + multiset(ts)) == TaskTimers(heap) + TaskCount(ts)
    decreases |ts|
  {
    if ts == [] {
      assert heap + multiset(ts) == heap;
    } else {
      var init, last := ts[..|ts| - 1], ts[|ts| - 1];
      TaskTimersOfMany(heap, init);
      assert ts == init + [last];
      assert heap + multiset(ts) == heap + multiset(init) + multiset{last};
      TaskTimersOfOneMore(heap + multiset(init), last);
    }
  }

  lemma {:induction false} TaskTimersOfRearmed(heap: multiset<Timer>, now: nat, n: nat)
    ensures TaskTimers(heap + multiset{}[Rearm(now) := n]) == TaskTimers(heap) + n
    ensures |heap + multiset{}[Rearm(now) := n]| == |heap| + n
    decreases n
  {
    if n == 0 {
      assert heap + multiset{}[Rearm(now) := n] == heap;
    } else {
      var fewer := heap + multiset{}[Rearm(now) := n - 1];
      TaskTimersOfRearmed(heap, now, n - 1);
      assert heap + multiset{}[Rearm(now) := n] == fewer + multiset{Rearm(now)};
      TaskTimersOfOneMore(fewer, Rearm(now));
    }
  }

  lemma {:induction false} TaskCountBounded(ts: seq<Timer>)
    ensures TaskCount(ts) <= |ts|
    decreases |ts|
  {
    if ts != [] {
      TaskCountBounded(ts[..|ts| - 1]);
    }
  }

  /** A tick never needs more room than the heap had, and never gains or loses a task timer. */
  lemma TickConserves(heap: multiset<Timer>, now: nat, p: Progress, next: multiset<Timer>)
    requires Ticked(heap, now, p, next)
    ensures TaskTimers(next) == TaskTimers(heap)
    ensures |next| <= |heap|
  {
    TaskTimersOfMany(p.left, p.popped);
    TaskTimersOfRearmed(p.left, now, TaskCount(p.popped));
    TaskCountBounded(p.popped);
    assert |heap| == |p.left| + |p.popped|;
  }

  /** Ties may be popped in any order, but the next heap and the preemption signal do not depend on it. */
  lemma TickIsDetermined(heap: multiset<Timer>, now: nat, p: Progress, next: multiset<Timer>,
                         q: Progress, other: multiset<Timer>)
    requires Ticked(heap, now, p, next) && Ticked(heap, now, q, other)
    ensures next == other && multiset(p.popped) == multiset(q.popped) && TaskCount(p.popped) == TaskCount(q.popped)
  {
    forall t: Timer
      ensures p.left[t] == q.left[t]
    {
      LeftCount(heap, now, p, next, t);
      LeftCount(heap, now, q, other, t);
    }
    assert p.left == q.left;
    SameRest(heap, p.left, multiset(p.popped), multiset(q.popped));
    TaskTimersOfMany(p.left, p.popped);
    TaskTimersOfMany(q.left, q.popped);
  }

  lemma SameRest(heap: multiset<Timer>, left: multiset<Timer>, a: multiset<Timer>, b: multiset<Timer>)
    requires heap == left + a && heap == left + b
    ensures a == b
  {
    forall t: Timer ensures a[t] == b[t] { assert heap[t] == left[t] + a[t] == left[t] + b[t]; }
  }

  lemma LeftCount(heap: multiset<Timer>, now: nat, p: Progress, next: multiset<Timer>, t: Timer)
    requires Ticked(heap, now, p, next)
    ensures p.left[t] == if t.IsOver(now) then 0 else heap[t]
  {
    if !t.IsOver(now) {
      assert t !in p.popped by {
        assert forall i :: 0 <= i < |p.popped| ==> p.popped[i].IsOver(now);
      }
      assert multiset(p.popped)[t] == 0;
    }
  }

  // ---------------------------------------------------------------- whole runs of unit ticks

  datatype State = State(tick: nat, heap: multiset<Timer>)

  datatype Step = UnitTick(p: Progress, preempt: bool) | Add(t: Timer)

  ghost predicate Next(s: State, step: Step, s': State) {
    match step
    case UnitTick(p, preempt) =>
      s'.tick == s.tick + 1 && Ticked(s.heap, s'.tick, p, s'.heap) && (preempt <==> TaskCount(p.popped) > 0)
    case Add(t) =>
      !t.IsTask() && s' == State(s.tick, s.heap + multiset{t})
  }

  ghost predicate Run(states: seq<State>, steps: seq<Step>) {
    && |states| == |steps| + 1
    && states[0] == State(0, multiset{Rearm(0)})
    && forall i :: 0 <= i < |steps| ==> Next(states[i], steps[i], states[i + 1])
  }

  /** The one task timer and when it is due. */
  function Due(tick: nat): Timer {
    Timer(tick + 2 - tick % 3, TASK_TIMER_VALUE)
  }

  ghost predicate Armed(s: State) {
    s.heap[Due(s.tick)] == 1 && forall t :: t in s.heap && t.IsTask() ==> t == Due(s.tick)
  }

  lemma {:induction false} CountOfOnly(ts: seq<Timer>, only: Timer)
    requires only.IsTask() && forall i :: 0 <= i < |ts| && ts[i].IsTask() ==> ts[i] == only
    ensures TaskCount(ts) == multiset(ts)[only]
    decreases |ts|
  {
    if ts != [] {
      var init, last := ts[..|ts| - 1], ts[|ts| - 1];
      CountOfOnly(init, only);
      assert ts == init + [last];
      assert multiset(ts) == multiset(init) + multiset{last};
    }
  }

  lemma UnitTickKeepsArmed(s: State, step: Step, s': State)
    requires Armed(s) && step.UnitTick? && Next(s, step, s')
    ensures Armed(s') && (step.preempt <==> s'.tick % 3 == 0)
  {
    var p, due := step.p, Due(s.tick);
    forall i | 0 <= i < |p.popped| && p.popped[i].IsTask()
      ensures p.popped[i] == due
    {
      assert p.popped[i] in multiset(p.popped) && p.popped[i] in s.heap;
    }
    CountOfOnly(p.popped, due);
    LeftCount(s.heap, s'.tick, p, s'.heap, due);
    assert s.heap[due] == p.left[due] + multiset(p.popped)[due];
    assert forall t :: t in p.left ==> t in s.heap;
  }

  lemma {:induction false} RunArmed(states: seq<State>, steps: seq<Step>, i: nat)
    requires Run(states, steps) && i < |states|
    ensures Armed(states[i])
    decreases i
  {
    if i > 0 {
      RunArmed(states, steps, i - 1);
      assert Next(states[i - 1], steps[i - 1], states[i - 1 + 1]);
      if steps[i - 1].UnitTick? {
        UnitTickKeepsArmed(states[i - 1], steps[i - 1], states[i]);
      }
    }
  }

  /** A period of two ticks and a strict comparison: preemption at ticks 3, 6, 9 and so on, and at no other. */
  lemma PreemptionEveryThirdTick(states: seq<State>, steps: seq<Step>, i: nat)
    requires Run(states, steps) && i < |steps| && steps[i].UnitTick?
    ensures steps[i].preempt <==> states[i + 1].tick % 3 == 0
  {
    RunArmed(states, steps, i);
    assert Next(states[i], steps[i], states[i + 1]);
    UnitTickKeepsArmed(states[i], steps[i], states[i + 1]);
  }
}
