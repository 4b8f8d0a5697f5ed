/**
  Round-robin task switching over a double-ended queue of saved contexts. `C` is everything that
  `switch_context` saves and restores; the processor's registers are one more value of that type.
 */
module TaskSwitch {

  class TaskManager<C> {
    var ctxs: seq<C>
    var cpu: C

    /** The kernel's start: a blank context for the code that is running, and the second task. */
    constructor (blank: C, taskB: C, registers: C)
      ensures ctxs == [blank, taskB] && cpu == registers
    {
      ctxs, cpu := [blank, taskB], registers;
    }

    /** The registers go to the context at `save`; the context at `load` goes to the registers. */
    method SwitchContext(load: nat, save: nat)
      requires load < |ctxs| && save < |ctxs| && load != save
      modifies this
      ensures ctxs == old(ctxs)[save := old(cpu)] && cpu == old(ctxs)[load]
    {
      var next := ctxs[load];
      ctxs := ctxs[save := cpu];
      cpu := next;
    }

    /**
      `split` is where the deque's buffer happens to wrap: its first slice is never empty. With fewer than
      two contexts the source panics on an empty `Option`.
     */
    method SwitchTasks(split: nat)
      requires 2 <= |ctxs| && 1 <= split <= |ctxs|
      modifies this
      ensures (ctxs, cpu) == Switched(old(ctxs), old(cpu))
    {
      var oldTask := ctxs[0];
      ctxs := ctxs[1..] + [oldTask];
      var front, tail := ctxs[..split], ctxs[split..];
      if |tail| == 0 {
        SwitchContext(0, |front| - 1);
      } else {
        SwitchContext(0, |front| + |tail| - 1);
      }
      assert ctxs == old(ctxs)[1..] + [old(cpu)];
    }
  }

  function Switched<C>(ctxs: seq<C>, cpu: C): (seq<C>, C)
    requires 2 <= |ctxs|
  {
    (ctxs[1..] + [cpu], ctxs[1])
  }

  // ---------------------------------------------------------------- every run

  /** `cur` numbers the running task; the program itself keeps no such number. */
  datatype State<C> = State(ctxs: seq<C>, cpu: C, cur: nat)

  /** The running task computes, which leaves any values in the registers; or the tasks are switched. */
  datatype Step<C> = Compute(registers: C) | Switch

  function After(cur: nat, n: nat): nat {
    if cur + 1 < n then cur + 1 else 0
  }

  ghost predicate Next<C>(s: State<C>, step: Step<C>, s': State<C>) {
    match step
    case Compute(r) => s' == s.(cpu := r)
    case Switch =>
      2 <= |s.ctxs| && (s'.ctxs, s'.cpu) == Switched(s.ctxs, s.cpu) && s'.cur == After(s.cur, |s.ctxs|)
  }

  ghost predicate Run<C>(states: seq<State<C>>, steps: seq<Step<C>>, n: nat) {
    && 2 <= n && |states| == |steps| + 1
    && |states[0].ctxs| == n && states[0].cur < n
    && forall i :: 0 <= i < |steps| ==> Next(states[i], steps[i], states[i + 1])
  }

  /** Where task `t` of `n` stands in the queue while task `cur` runs. */
  function Place(t: nat, cur: nat, n: nat): nat
    requires t < n && cur < n
  {
    if cur <= t then t - cur else t + n - cur
  }

  /** The registers as task `t` sees them: live when it runs, saved when it does not. */
  function Registers<C>(s: State<C>, t: nat): C
    requires t < |s.ctxs| && s.cur < |s.ctxs|
  {
    if t == s.cur then s.cpu else s.ctxs[Place(t, s.cur, |s.ctxs|)]
  }

  /** No switch disturbs the registers of any task, and a computation only those of its own. */
  lemma StepKeepsRegisters<C>(s: State<C>, step: Step<C>, s': State<C>, t: nat)
    requires Next(s, step, s') && t < |s.ctxs| && s.cur < |s.ctxs|
    ensures |s'.ctxs| == |s.ctxs| && s'.cur < |s.ctxs|
    ensures Registers(s', t) == if step.Compute? && t == s.cur then step.registers else Registers(s, t)
  {
    if step.Switch? {
      var n := |s.ctxs|;
      if t != s.cur {
        assert Place(t, s.cur, n) == Place(t, s'.cur, n) + 1;
      }
    }
  }

  lemma {:induction false} RunShape<C>(states: seq<State<C>>, steps: seq<Step<C>>, n: nat, i: nat)
    requires Run(states, steps, n) && i < |states|
    ensures |states[i].ctxs| == n && states[i].cur < n
    decreases i
  {
    if i > 0 {
      RunShape(states, steps, n, i - 1);
      assert Next(states[i - 1], steps[i - 1], states[i - 1 + 1]);
      StepKeepsRegisters(states[i - 1], steps[i - 1], states[i], 0);
    }
  }

  function Switches<C>(steps: seq<Step<C>>, i: nat, k: nat): nat
    requires i <= k <= |steps|
    decreases k
  {
    if i == k then 0 else Switches(steps, i, k - 1) + (if steps[k - 1].Switch? then 1 else 0)
  }

  /** Task `t` was switched away from at step `i` and has not run from then up to state `k`. */
  ghost predicate Suspended<C>(states: seq<State<C>>, steps: seq<Step<C>>, t: nat, i: nat, k: nat)
    requires |states| == |steps| + 1
  {
    && i < k < |states| && states[i].cur == t && steps[i].Switch?
    && forall j :: i < j <= k ==> states[j].cur != t
  }

  /** While a task is suspended its registers are safe, and the switches so far are fewer than `n`. */
  lemma {:induction false} WhileSuspended<C>(
    states: seq<State<C>>, steps: seq<Step<C>>, n: nat, t: nat, i: nat, k: nat)
    requires Run(states, steps, n) && t < n && Suspended(states, steps, t, i, k)
    ensures |states[k].ctxs| == n && states[k].cur < n
    ensures Registers(states[k], t) == states[i].cpu
    ensures 1 <= Switches(steps, i, k) < n && Place(states[k].cur, t, n) == Switches(steps, i, k)
    decreases k
  {
    RunShape(states, steps, n, k - 1);
    assert Next(states[k - 1], steps[k - 1], states[k - 1 + 1]);
    StepKeepsRegisters(states[k - 1], steps[k - 1], states[k], t);
    if k - 1 > i {
      WhileSuspended(states, steps, n, t, i, k - 1);
    } else {
      assert Switches(steps, i, k - 1) == 0;
    }
  }

  /**
    From the switch that suspends a task to the next one that resumes it there are exactly `n` switches,
    counting both, and it finds exactly the registers that it was suspended with.
   */
  lemma ResumesWhatItLeft<C>(states: seq<State<C>>, steps: seq<Step<C>>, n: nat, t: nat, i: nat, k: nat)
    requires Run(states, steps, n) && t < n && Suspended(states, steps, t, i, k)
    requires k + 1 < |states| && states[k + 1].cur == t
    ensures states[k + 1].cpu == states[i].cpu
    ensures steps[k].Switch? && Switches(steps, i, k + 1) == n
  {
    WhileSuspended(states, steps, n, t, i, k);
    assert Next(states[k], steps[k], states[k + 1]);
    StepKeepsRegisters(states[k], steps[k], states[k + 1], t);
  }
}
