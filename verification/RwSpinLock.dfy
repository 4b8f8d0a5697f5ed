/**
  The reader-writer spin lock: one 64-bit word that is 2n while n readers hold the lock
  and 1 while a writer does.  Every atomic instruction is one step; between the load and
  the compare-exchange of an acquisition any other thread may run.
 */
module RwSpinLock {

  type Thread = nat

  const WORD: nat := 0x1_0000_0000_0000_0000

  /** `SawCount` has loaded the word for a shared acquisition, `SawZero` for an exclusive one. */
  datatype Pc = Idle | SawCount(seen: nat) | SawZero | Reading | Writing

  datatype Lock = Lock(count: nat, pcs: map<Thread, Pc>)

  datatype Step =
    | LoadShared
    | ExchangeShared(spurious: bool)
    | LoadExclusive
    | ExchangeExclusive(spurious: bool)
    | TryExclusive(spurious: bool)
    | UnlockShared
    | UnlockExclusive

  ghost function Moved(s: Lock, t: Thread, pc: Pc): Lock {
    s.(pcs := s.pcs[t := pc])
  }

  /** compare_exchange_weak(0, 1) */
  ghost function AfterExchangeExclusive(s: Lock, t: Thread, spurious: bool): Lock {
    if s.count == 0 && !spurious then Moved(s, t, Writing).(count := 1) else Moved(s, t, Idle)
  }

  ghost predicate Next(s: Lock, t: Thread, step: Step, s': Lock) {
    && t in s.pcs
    && match (step, s.pcs[t])
       case (LoadShared, Idle) =>
         s' == Moved(s, t, SawCount(s.count))
       case (ExchangeShared(spurious), SawCount(seen)) =>
         // a loaded 1 means a writer: go round again without exchanging
         s' == if seen != 1 && s.count == seen && !spurious
               then Moved(s, t, Reading).(count := (seen + 2) % WORD)
               else Moved(s, t, Idle)
       case (LoadExclusive, Idle) =>
         s' == if s.count == 0 then Moved(s, t, SawZero) else s
       case (ExchangeExclusive(spurious), SawZero) =>
         s' == AfterExchangeExclusive(s, t, spurious)
       case (TryExclusive(spurious), Idle) =>
         s' == AfterExchangeExclusive(s, t, spurious)
       case (UnlockShared, Reading) =>
         s' == Moved(s, t, Idle).(count := (s.count + WORD - 2) % WORD)
       case (UnlockExclusive, Writing) =>
         s' == Moved(s, t, Idle).(count := 0)
       case _ => false
  }

  ghost function Readers(s: Lock): set<Thread> {
    set t | t in s.pcs && s.pcs[t].Reading?
  }

  ghost function Writers(s: Lock): set<Thread> {
    set t | t in s.pcs && s.pcs[t].Writing?
  }

  /** A writer is alone. */
  ghost predicate Excludes(s: Lock) {
    |Writers(s)| <= 1 && (Writers(s) != {} ==> Readers(s) == {})
  }

  /** The word is twice the readers plus the writers. */
  ghost predicate Counts(s: Lock) {
    s.count == 2 * |Readers(s)| + |Writers(s)|
  }

  ghost predicate Inv(s: Lock) {
    s.count == (2 * |Readers(s)| + |Writers(s)|) % WORD && Excludes(s)
  }

  lemma MovedReaders(s: Lock, t: Thread, pc: Pc)
    requires t in s.pcs
    ensures var r := Readers(Moved(s, t, pc));
      && r == (if pc.Reading? then Readers(s) + {t} else Readers(s) - {t})
      && |r| == |Readers(s)| + (if pc.Reading? then 1 else 0) - (if s.pcs[t].Reading? then 1 else 0)
  {
    assert Readers(Moved(s, t, pc)) == if pc.Reading? then Readers(s) + {t} else Readers(s) - {t};
    OneElement(Readers(s), t);
  }

  lemma MovedWriters(s: Lock, t: Thread, pc: Pc)
    requires t in s.pcs
    ensures var w := Writers(Moved(s, t, pc));
      && w == (if pc.Writing? then Writers(s) + {t} else Writers(s) - {t})
      && |w| == |Writers(s)| + (if pc.Writing? then 1 else 0) - (if s.pcs[t].Writing? then 1 else 0)
  {
    assert Writers(Moved(s, t, pc)) == if pc.Writing? then Writers(s) + {t} else Writers(s) - {t};
    OneElement(Writers(s), t);
  }

  /** How moving one thread changes the two sets. */
  lemma MovedSets(s: Lock, t: Thread, pc: Pc)
    requires t in s.pcs
    ensures var s' := Moved(s, t, pc);
            && Readers(s') == (if pc.Reading? then Readers(s) + {t} else Readers(s) - {t})
            && Writers(s') == (if pc.Writing? then Writers(s) + {t} else Writers(s) - {t})
            && |Readers(s')| == |Readers(s)| + (if pc.Reading? then 1 else 0) - (if s.pcs[t].Reading? then 1 else 0)
            && |Writers(s')| == |Writers(s)| + (if pc.Writing? then 1 else 0) - (if s.pcs[t].Writing? then 1 else 0)
  {
    MovedReaders(s, t, pc);
    MovedWriters(s, t, pc);
  }

  lemma OneElement<T>(a: set<T>, x: T)
    ensures |a + {x}| == if x in a then |a| else |a| + 1
    ensures |a - {x}| == if x in a then |a| - 1 else |a|
  {
    if x in a {
      assert a + {x} == a;
    } else {
      assert a - {x} == a;
    }
  }

  lemma SameSets(s: Lock, count: nat)
    ensures Readers(s.(count := count)) == Readers(s) && Writers(s.(count := count)) == Writers(s)
  {
  }

  lemma {:induction false} SubsetSize<T>(a: set<T>, b: set<T>)
    requires a <= b
    ensures |a| <= |b|
  {
    if a != {} {
      var x :| x in a;
      SubsetSize(a - {x}, b - {x});
    }
  }

  lemma ReadersFit(s: Lock)
    ensures |Readers(s)| <= |s.pcs|
  {
    assert |s.pcs| == |s.pcs.Keys|;
    assert Readers(s) <= s.pcs.Keys;
    SubsetSize(Readers(s), s.pcs.Keys);
  }

  /** Not all threads are readers when one is known not to be. */
  lemma OneIsOutside(s: Lock, t: Thread)
    requires t in s.pcs && !s.pcs[t].Reading?
    ensures |Readers(s)| < |s.pcs|
  {
    assert Readers(s) <= s.pcs.Keys - {t};
    SubsetSize(Readers(s), s.pcs.Keys - {t});
    OneElement(s.pcs.Keys, t);
  }

  lemma WrapsUp(n: nat)
    ensures (n % WORD + 2) % WORD == (n + 2) % WORD
  {
  }

  lemma WrapsDown(n: nat)
    requires n >= 2
    ensures (n % WORD + WORD - 2) % WORD == (n - 2) % WORD
  {
  }

  /** Taking the lock shared: a word that is not 1 and unchanged since it was loaded counts readers only. */
  lemma ShareKeepsInv(s: Lock, t: Thread)
    requires Inv(s) && t in s.pcs && s.pcs[t] == SawCount(s.count) && s.count != 1
    ensures Inv(Moved(s, t, Reading).(count := (s.count + 2) % WORD))
  {
    MovedSets(s, t, Reading);
    SameSets(Moved(s, t, Reading), (s.count + 2) % WORD);
    assert Writers(s) == {};
    WrapsUp(2 * |Readers(s)|);
  }

  lemma StayOutKeepsInv(s: Lock, t: Thread, pc: Pc)
    requires Inv(s) && t in s.pcs
    requires !s.pcs[t].Reading? && !s.pcs[t].Writing? && !pc.Reading? && !pc.Writing?
    ensures Inv(Moved(s, t, pc))
  {
    MovedSets(s, t, pc);
  }

  lemma UnshareKeepsInv(s: Lock, t: Thread)
    requires Inv(s) && t in s.pcs && s.pcs[t].Reading?
    ensures Inv(Moved(s, t, Idle).(count := (s.count + WORD - 2) % WORD))
  {
    MovedSets(s, t, Idle);
    SameSets(Moved(s, t, Idle), (s.count + WORD - 2) % WORD);
    assert t in Readers(s);
    WrapsDown(2 * |Readers(s)| + |Writers(s)|);
  }

  /** A word of 0 means that nobody holds the lock, since the thread that sees it is not a reader itself. */
  lemma ZeroIsFree(s: Lock, t: Thread)
    requires Inv(s) && t in s.pcs && !s.pcs[t].Reading? && |s.pcs| <= WORD / 2 && s.count == 0
    ensures Readers(s) == {} && Writers(s) == {}
  {
    OneIsOutside(s, t);
  }

  lemma ExclusiveKeepsInv(s: Lock, t: Thread, spurious: bool)
    requires Inv(s) && t in s.pcs && (s.pcs[t].Idle? || s.pcs[t].SawZero?) && |s.pcs| <= WORD / 2
    ensures Inv(AfterExchangeExclusive(s, t, spurious))
  {
    if s.count == 0 && !spurious {
      ZeroIsFree(s, t);
      MovedSets(s, t, Writing);
      SameSets(Moved(s, t, Writing), 1);
    } else {
      StayOutKeepsInv(s, t, Idle);
    }
  }

  lemma ReleaseKeepsInv(s: Lock, t: Thread)
    requires Inv(s) && t in s.pcs && s.pcs[t].Writing?
    ensures Inv(Moved(s, t, Idle).(count := 0))
  {
    MovedSets(s, t, Idle);
    SameSets(Moved(s, t, Idle), 0);
    assert t in Writers(s);
  }

  /** Up to 2^63 threads: the word may wrap around, but no thread outside the lock can see it at 0 then. */
  lemma NextKeepsInv(s: Lock, t: Thread, step: Step, s': Lock)
    requires Inv(s) && Next(s, t, step, s') && |s.pcs| <= WORD / 2
    ensures Inv(s') && s'.pcs.Keys == s.pcs.Keys
  {
    assert s'.pcs.Keys == s.pcs.Keys;
    match step
    case LoadShared => StayOutKeepsInv(s, t, SawCount(s.count));
    case ExchangeShared(spurious) =>
      if s'.pcs[t].Reading? { ShareKeepsInv(s, t); } else { StayOutKeepsInv(s, t, Idle); }
    case LoadExclusive => StayOutKeepsInv(s, t, SawZero);
    case ExchangeExclusive(spurious) => ExclusiveKeepsInv(s, t, spurious);
    case TryExclusive(spurious) => ExclusiveKeepsInv(s, t, spurious);
    case UnlockShared => UnshareKeepsInv(s, t);
    case UnlockExclusive => ReleaseKeepsInv(s, t);
  }

  ghost predicate IsRun(states: seq<Lock>, schedule: seq<(Thread, Step)>) {
    && |states| == |schedule| + 1
    && states[0].count == 0 && (forall t :: t in states[0].pcs ==> states[0].pcs[t].Idle?)
    && forall i :: 0 <= i < |schedule| ==> Next(states[i], schedule[i].0, schedule[i].1, states[i + 1])
  }

  lemma {:induction false} RunInv(states: seq<Lock>, schedule: seq<(Thread, Step)>, i: nat)
    requires IsRun(states, schedule) && i <= |schedule| && |states[0].pcs| <= WORD / 2
    ensures Inv(states[i]) && states[i].pcs.Keys == states[0].pcs.Keys
  {
    if i == 0 {
      assert Readers(states[0]) == {} && Writers(states[0]) == {};
    } else {
      RunInv(states, schedule, i - 1);
      assert |states[i - 1].pcs| == |states[i - 1].pcs.Keys| == |states[0].pcs.Keys| == |states[0].pcs|;
      assert Next(states[i - 1], schedule[i - 1].0, schedule[i - 1].1, states[i - 1 + 1]);
      NextKeepsInv(states[i - 1], schedule[i - 1].0, schedule[i - 1].1, states[i]);
    }
  }

  /** With fewer than 2^63 threads the word does not wrap around. */
  lemma CountIsExact(s: Lock)
    requires Inv(s) && |s.pcs| < WORD / 2
    ensures Counts(s)
  {
    ReadersFit(s);
  }

  /** In every state of every run two threads inside the lock are both readers. */
  lemma MutualExclusion(states: seq<Lock>, schedule: seq<(Thread, Step)>, i: nat, t: Thread, u: Thread)
    requires IsRun(states, schedule) && i <= |schedule| && |states[0].pcs| <= WORD / 2
    requires t != u && t in states[i].pcs && u in states[i].pcs
    requires states[i].pcs[t].Writing?
    ensures !states[i].pcs[u].Writing? && !states[i].pcs[u].Reading?
  {
    RunInv(states, schedule, i);
    var s := states[i];
    assert t in Writers(s);
    assert u !in Readers(s);
    if s.pcs[u].Writing? {
      SubsetSize({t, u}, Writers(s));
    }
  }

  // ---------------------------------------------------------------- the bound is exact

  ghost function CrowdPc(k: nat, t: Thread): Pc {
    if t < k then Reading else Idle
  }

  /** `n` threads of which the first `k` read and the others are idle. */
  ghost function Crowd(n: nat, k: nat): Lock {
    Lock(2 * k % WORD, map t: Thread | 0 <= t < n :: CrowdPc(k, t))
  }

  lemma {:induction false} CountUpTo(s: set<Thread>, k: nat)
    requires forall t :: t in s <==> 0 <= t < k
    ensures |s| == k
    decreases k
  {
    if k == 0 {
      assert s == {};
    } else {
      CountUpTo(s - {k - 1}, k - 1);
    }
  }

  lemma CrowdReaders(n: nat, k: nat)
    requires k <= n
    ensures |Readers(Crowd(n, k))| == k && Writers(Crowd(n, k)) == {}
  {
    CountUpTo(Readers(Crowd(n, k)), k);
  }

  /** Thread `k` joins the readers: it loads the word and exchanges it. */
  lemma CrowdGrows(n: nat, k: nat) returns (loaded: Lock)
    requires k < n && 2 * k < WORD
    ensures Next(Crowd(n, k), k, LoadShared, loaded)
    ensures Next(loaded, k, ExchangeShared(false), Crowd(n, k + 1))
  {
    var s := Crowd(n, k);
    loaded := Moved(s, k, SawCount(s.count));
    assert Moved(loaded, k, Reading).pcs == Crowd(n, k + 1).pcs;
  }

  lemma RunExtended(states: seq<Lock>, schedule: seq<(Thread, Step)>, t: Thread, step: Step, s: Lock)
    requires IsRun(states, schedule) && Next(states[|schedule|], t, step, s)
    ensures IsRun(states + [s], schedule + [(t, step)])
  {
    var states', schedule' := states + [s], schedule + [(t, step)];
    forall i | 0 <= i < |schedule'|
      ensures Next(states'[i], schedule'[i].0, schedule'[i].1, states'[i + 1])
    {
      if i < |schedule| {
        assert Next(states[i], schedule[i].0, schedule[i].1, states[i + 1]);
      }
    }
  }

  /** One thread after the other becomes a reader, up to 2^63 of them. */
  lemma {:induction false} CrowdRun(n: nat, k: nat) returns (states: seq<Lock>, schedule: seq<(Thread, Step)>)
    requires k <= n && k <= WORD / 2
    ensures IsRun(states, schedule) && states[0] == Crowd(n, 0) && states[|schedule|] == Crowd(n, k)
    decreases k
  {
    if k == 0 {
      states, schedule := [Crowd(n, 0)], [];
    } else {
      states, schedule := CrowdRun(n, k - 1);
      var loaded := CrowdGrows(n, k - 1);
      RunExtended(states, schedule, k - 1, LoadShared, loaded);
      states, schedule := states + [loaded], schedule + [(k - 1, LoadShared)];
      RunExtended(states, schedule, k - 1, ExchangeShared(false), Crowd(n, k));
      states, schedule := states + [Crowd(n, k)], schedule + [(k - 1, ExchangeShared(false))];
    }
  }

  /** With 2^63 threads or more a run reaches a lock that looks free while 2^63 readers hold it. */
  lemma OverflowAtTwoToThe63(n: nat) returns (states: seq<Lock>, schedule: seq<(Thread, Step)>)
    requires n >= WORD / 2
    ensures IsRun(states, schedule) && states[0] == Crowd(n, 0)
    ensures var s := states[|schedule|]; s.count == 0 && |Readers(s)| == WORD / 2 && !Counts(s)
  {
    states, schedule := CrowdRun(n, WORD / 2);
    CrowdReaders(n, WORD / 2);
  }

  /** One thread more, and a writer gets in among the readers. */
  lemma WriterAmongReaders(n: nat) returns (states: seq<Lock>, schedule: seq<(Thread, Step)>)
    requires n > WORD / 2
    ensures IsRun(states, schedule) && states[0] == Crowd(n, 0)
    ensures var s := states[|schedule|];
      0 in s.pcs && WORD / 2 in s.pcs && s.pcs[0].Reading? && s.pcs[WORD / 2].Writing?
  {
    var k := WORD / 2;
    states, schedule := CrowdRun(n, k);
    var s := AfterExchangeExclusive(Crowd(n, k), k, false);
    RunExtended(states, schedule, k, TryExclusive(false), s);
    states, schedule := states + [s], schedule + [(k, TryExclusive(false))];
  }

  /** The word counts the holders in every state of every run of `n` threads that start idle. */
  ghost predicate AlwaysCounts(n: nat) {
    forall states, schedule, i | IsRun(states, schedule) && states[0] == Crowd(n, 0) && 0 <= i < |states| ::
      Counts(states[i])
  }

  /** A writer is alone in every state of every such run. */
  ghost predicate AlwaysExcludes(n: nat) {
    forall states, schedule, i | IsRun(states, schedule) && states[0] == Crowd(n, 0) && 0 <= i < |states| ::
      Excludes(states[i])
  }

  lemma CrowdInv(n: nat, states: seq<Lock>, schedule: seq<(Thread, Step)>, i: nat)
    requires n <= WORD / 2 && IsRun(states, schedule) && states[0] == Crowd(n, 0) && i < |states|
    ensures Inv(states[i]) && |states[i].pcs| == n
  {
    CountUpTo(states[0].pcs.Keys, n);
    assert |states[0].pcs| == |states[0].pcs.Keys|;
    RunInv(states, schedule, i);
    assert |states[i].pcs| == |states[i].pcs.Keys|;
  }

  lemma CountsIffFewer(n: nat)
    ensures AlwaysCounts(n) <==> n < WORD / 2
  {
    if n < WORD / 2 {
      forall states: seq<Lock>, schedule: seq<(Thread, Step)>, i
        | IsRun(states, schedule) && states[0] == Crowd(n, 0) && 0 <= i < |states|
        ensures Counts(states[i])
      {
        CrowdInv(n, states, schedule, i);
        CountIsExact(states[i]);
      }
    } else {
      var states, schedule := OverflowAtTwoToThe63(n);
      assert !Counts(states[|schedule|]);
    }
  }

  /** Mutual exclusion outlives the count by one thread: it holds for 2^63 threads too, and for no more. */
  lemma ExcludesIffAtMost(n: nat)
    ensures AlwaysExcludes(n) <==> n <= WORD / 2
  {
    if n <= WORD / 2 {
      forall states: seq<Lock>, schedule: seq<(Thread, Step)>, i
        | IsRun(states, schedule) && states[0] == Crowd(n, 0) && 0 <= i < |states|
        ensures Excludes(states[i])
      {
        CrowdInv(n, states, schedule, i);
      }
    } else {
      var states, schedule := WriterAmongReaders(n);
      var s := states[|schedule|];
      assert 0 in Readers(s) && WORD / 2 in Writers(s);
      assert !Excludes(s);
    }
  }
}
