/** Two threads count the odd and the even numbers below nEntries, each nesting the two locks in
    the opposite order. A step is one lock, unlock, test, load or store; an increment is a load
    and a store, so that only the locks keep it whole. */
module TwoMutex {
  import opened Wrappers

  datatype Lock = Odd | Even
  datatype Tid = Upper | Lower

  datatype Mutex = Mutex(owner: Option<Tid>, value: int)

  datatype Pc =
    | Loop | LockOuter | Branch | LoadOuter | StoreOuter
    | LockInner | LoadInner | StoreInner | UnlockInner | UnlockOuter | Done

  datatype Thread = Thread(pc: Pc, i: int, reg: int)

  datatype State = State(odd: Mutex, even: Mutex, upper: Thread, lower: Thread) {
    function Mutex(l: Lock): Mutex {
      if l == Odd then odd else even
    }

    function Thread(t: Tid): Thread {
      if t == Upper then upper else lower
    }

    function SetMutex(l: Lock, m: Mutex): State {
      if l == Odd then this.(odd := m) else this.(even := m)
    }

    function SetThread(t: Tid, th: Thread): State {
      if t == Upper then this.(upper := th) else this.(lower := th)
    }
  }

  /** The lock thread t takes on every iteration, and the one it nests inside. */
  function Outer(t: Tid): Lock {
    if t == Upper then Odd else Even
  }

  function Inner(t: Tid): Lock {
    if t == Upper then Even else Odd
  }

  /** The counter that number i belongs to. */
  function Class(i: int): Lock {
    if i % 2 == 1 then Odd else Even
  }

  function First(n: nat, t: Tid): int {
    if t == Upper then n / 2 else 0
  }

  function Last(n: nat, t: Tid): int {
    if t == Upper then n else n / 2
  }

  function Init(n: nat): State {
    State(Mutex(None, 0), Mutex(None, 0), Thread(Loop, First(n, Upper), 0), Thread(Loop, First(n, Lower), 0))
  }

  predicate Enabled(s: State, t: Tid) {
    var pc := s.Thread(t).pc;
    && pc != Done
    && (pc == LockOuter ==> s.Mutex(Outer(t)).owner == None)
    && (pc == LockInner ==> s.Mutex(Inner(t)).owner == None)
  }

  function Acquire(s: State, t: Tid, l: Lock): State {
    s.SetMutex(l, s.Mutex(l).(owner := Some(t)))
  }

  function Release(s: State, l: Lock): State {
    s.SetMutex(l, s.Mutex(l).(owner := None))
  }

  function Store(s: State, l: Lock, v: int): State {
    s.SetMutex(l, s.Mutex(l).(value := v))
  }

  /** One step of thread t. */
  function Step(n: nat, s: State, t: Tid): State
    requires Enabled(s, t)
  {
    var th := s.Thread(t);
    match th.pc
    case Loop => s.SetThread(t, th.(pc := if th.i < Last(n, t) then LockOuter else Done))
    case LockOuter => Acquire(s, t, Outer(t)).SetThread(t, th.(pc := Branch))
    case Branch => s.SetThread(t, th.(pc := if Class(th.i) == Outer(t) then LoadOuter else LockInner))
    case LoadOuter => s.SetThread(t, th.(pc := StoreOuter, reg := s.Mutex(Outer(t)).value))
    case StoreOuter => Store(s, Outer(t), th.reg + 1).SetThread(t, th.(pc := UnlockOuter))
    case LockInner => Acquire(s, t, Inner(t)).SetThread(t, th.(pc := LoadInner))
    case LoadInner => s.SetThread(t, th.(pc := StoreInner, reg := s.Mutex(Inner(t)).value))
    case StoreInner => Store(s, Inner(t), th.reg + 1).SetThread(t, th.(pc := UnlockInner))
    case UnlockInner => Release(s, Inner(t)).SetThread(t, th.(pc := UnlockOuter))
    case UnlockOuter => Release(s, Outer(t)).SetThread(t, th.(pc := Loop, i := th.i + 1))
  }

  /** Scheduling the threads in the given order leads from s to s'. */
  predicate Runs(n: nat, s: State, schedule: seq<Tid>, s': State)
    decreases |schedule|
  {
    if schedule == [] then s == s'
    else Enabled(s, schedule[0]) && Runs(n, Step(n, s, schedule[0]), schedule[1..], s')
  }

  predicate Finished(s: State) {
    s.upper.pc == Done && s.lower.pc == Done
  }

  /** Upper holds odd and waits for even; lower holds even and waits for odd. */
  predicate CircularWait(s: State) {
    && s.upper.pc == LockInner && s.lower.pc == LockInner
    && s.odd.owner == Some(Upper) && s.even.owner == Some(Lower)
  }

  /** How many of the numbers lo, ..., hi-1 belong to counter l. */
  function Count(l: Lock, lo: int, hi: int): (c: nat)
    decreases hi - lo
  {
    if hi <= lo then 0 else Count(l, lo, hi - 1) + (if Class(hi - 1) == l then 1 else 0)
  }

  predicate HoldsOuter(pc: Pc) {
    pc != Loop && pc != LockOuter && pc != Done
  }

  predicate HoldsInner(pc: Pc) {
    pc == LoadInner || pc == StoreInner || pc == UnlockInner
  }

  /** By its program counter, thread t is inside the critical section of l. */
  predicate Inside(s: State, t: Tid, l: Lock) {
    (l == Outer(t) && HoldsOuter(s.Thread(t).pc)) || (l == Inner(t) && HoldsInner(s.Thread(t).pc))
  }

  /** The first number thread t has not counted yet. */
  function Counted(th: Thread): int {
    if th.pc == UnlockInner || th.pc == UnlockOuter then th.i + 1 else th.i
  }

  predicate ThreadInv(n: nat, s: State, t: Tid) {
    var th := s.Thread(t);
    && First(n, t) <= th.i <= Last(n, t)
    && (th.i == Last(n, t) ==> th.pc == Loop || th.pc == Done)
    && (th.pc == Done ==> th.i == Last(n, t))
    && (th.pc == LoadOuter || th.pc == StoreOuter ==> Class(th.i) == Outer(t))
    && (th.pc == LockInner || HoldsInner(th.pc) ==> Class(th.i) == Inner(t))
    && (th.pc == StoreOuter ==> th.reg == s.Mutex(Outer(t)).value)
    && (th.pc == StoreInner ==> th.reg == s.Mutex(Inner(t)).value)
  }

  predicate OwnerInv(s: State, l: Lock) {
    forall t :: s.Mutex(l).owner == Some(t) <==> Inside(s, t, l)
  }

  predicate ValueInv(n: nat, s: State, l: Lock) {
    s.Mutex(l).value == Count(l, First(n, Upper), Counted(s.upper)) + Count(l, First(n, Lower), Counted(s.lower))
  }

  predicate Inv(n: nat, s: State) {
    && ThreadInv(n, s, Upper) && ThreadInv(n, s, Lower)
    && OwnerInv(s, Odd) && OwnerInv(s, Even)
    && ValueInv(n, s, Odd) && ValueInv(n, s, Even)
  }

  lemma StepKeepsOwners(n: nat, s: State, t: Tid, l: Lock)
    requires OwnerInv(s, Odd) && OwnerInv(s, Even) && Enabled(s, t)
    ensures OwnerInv(Step(n, s, t), l)
  {
    var s' := Step(n, s, t);
    forall u: Tid
      ensures s'.Mutex(l).owner == Some(u) <==> Inside(s', u, l)
    {
      assert s.Mutex(l).owner == Some(u) <==> Inside(s, u, l);
      assert s.Mutex(l).owner == Some(t) <==> Inside(s, t, l);
    }
  }

  lemma StepKeepsThreads(n: nat, s: State, t: Tid, u: Tid)
    requires Inv(n, s) && Enabled(s, t)
    ensures ThreadInv(n, Step(n, s, t), u)
  {
    hide Count, ValueInv;
    assert forall l: Lock :: s.Mutex(l).owner == Some(u) <==> Inside(s, u, l);
    assert forall l: Lock :: s.Mutex(l).owner == Some(t) <==> Inside(s, t, l);
  }

  lemma StepKeepsValues(n: nat, s: State, t: Tid, l: Lock)
    requires Inv(n, s) && Enabled(s, t)
    ensures ValueInv(n, Step(n, s, t), l)
  {
    hide Count, OwnerInv;
    var s', th := Step(n, s, t), s.Thread(t);
    if th.pc == StoreOuter || th.pc == StoreInner {
      assert Counted(s'.Thread(t)) == th.i + 1;
      CountNext(l, First(n, t), th.i);
    } else {
      assert Counted(s'.Thread(t)) == Counted(th);
    }
  }

  lemma CountNext(l: Lock, lo: int, i: int)
    requires lo <= i
    ensures Count(l, lo, i + 1) == Count(l, lo, i) + (if Class(i) == l then 1 else 0)
  {
  }

  lemma StepKeepsInv(n: nat, s: State, t: Tid)
    requires Inv(n, s) && Enabled(s, t)
    ensures Inv(n, Step(n, s, t))
  {
    StepKeepsOwners(n, s, t, Odd);
    StepKeepsOwners(n, s, t, Even);
    StepKeepsThreads(n, s, t, Upper);
    StepKeepsThreads(n, s, t, Lower);
    StepKeepsValues(n, s, t, Odd);
    StepKeepsValues(n, s, t, Even);
  }

  /** What every run keeps. */
  lemma {:induction false} RunsKeepInv(n: nat, s: State, schedule: seq<Tid>, s': State)
    requires Inv(n, s) && Runs(n, s, schedule, s')
    ensures Inv(n, s')
    decreases |schedule|
  {
    if schedule != [] {
      StepKeepsInv(n, s, schedule[0]);
      RunsKeepInv(n, Step(n, s, schedule[0]), schedule[1..], s');
    }
  }

  lemma Reachable(n: nat, schedule: seq<Tid>, s: State)
    requires Runs(n, Init(n), schedule, s)
    ensures Inv(n, s)
  {
    assert Inv(n, Init(n));
    RunsKeepInv(n, Init(n), schedule, s);
  }

  /** In every reachable state, stuck or not, each lock has at most one thread inside, its owner. */
  lemma MutualExclusion(n: nat, schedule: seq<Tid>, s: State, l: Lock)
    requires Runs(n, Init(n), schedule, s)
    ensures !(Inside(s, Upper, l) && Inside(s, Lower, l))
    ensures forall t: Tid :: s.Mutex(l).owner == Some(t) <==> Inside(s, t, l)
  {
    Reachable(n, schedule, s);
    assert OwnerInv(s, l);
    assert s.Mutex(l).owner == Some(Upper) <==> Inside(s, Upper, l);
    assert s.Mutex(l).owner == Some(Lower) <==> Inside(s, Lower, l);
  }

  /** A step changes a counter only by one, and only while its thread owns that counter's lock, before
      and after. */
  lemma ExclusiveAccess(n: nat, schedule: seq<Tid>, s: State, t: Tid, l: Lock)
    requires Runs(n, Init(n), schedule, s) && Enabled(s, t)
    ensures Step(n, s, t).Mutex(l).value != s.Mutex(l).value
            ==> s.Mutex(l).owner == Some(t) && Step(n, s, t).Mutex(l) == Mutex(Some(t), s.Mutex(l).value + 1)
  {
    Reachable(n, schedule, s);
    assert s.Mutex(l).owner == Some(t) <==> Inside(s, t, l);
  }

  /** A reachable state in which neither thread can step is finished or the circular wait, and
      conversely. */
  lemma StuckExactly(n: nat, schedule: seq<Tid>, s: State)
    requires Runs(n, Init(n), schedule, s)
    ensures !Enabled(s, Upper) && !Enabled(s, Lower) <==> Finished(s) || CircularWait(s)
  {
    hide Count, ValueInv, Runs;
    Reachable(n, schedule, s);
    assert forall l: Lock, t: Tid :: s.Mutex(l).owner == Some(t) <==> Inside(s, t, l);
    assert forall l: Lock :: s.Mutex(l).owner != None ==> Inside(s, Upper, l) || Inside(s, Lower, l);
  }

  lemma {:induction false} CountBelow(l: Lock, lo: nat, n: nat)
    requires lo <= n
    ensures Count(l, lo, n) + Count(l, 0, lo) == if l == Odd then n / 2 else (n + 1) / 2
    decreases n
  {
    if n > lo {
      CountBelow(l, lo, n - 1);
    } else if n > 0 {
      CountBelow(l, n - 1, n - 1);
    }
  }

  /** A finished run has counted exactly the odd and the even numbers below nEntries. */
  lemma FinishedCounts(n: nat, schedule: seq<Tid>, s: State)
    requires Runs(n, Init(n), schedule, s) && Finished(s)
    ensures s.odd == Mutex(None, n / 2) && s.even == Mutex(None, (n + 1) / 2)
  {
    Reachable(n, schedule, s);
    CountBelow(Odd, n / 2, n);
    CountBelow(Even, n / 2, n);
    assert s.odd.owner == Some(Upper) <==> Inside(s, Upper, Odd);
    assert s.odd.owner == Some(Lower) <==> Inside(s, Lower, Odd);
    assert s.even.owner == Some(Upper) <==> Inside(s, Upper, Even);
    assert s.even.owner == Some(Lower) <==> Inside(s, Lower, Even);
  }

  /** The steps left in the current iteration, at most. */
  function Rank(pc: Pc): nat {
    match pc
    case Done => 0
    case Loop => 1
    case UnlockOuter => 2
    case UnlockInner => 3
    case StoreInner => 4
    case LoadInner => 5
    case StoreOuter => 5
    case LockInner => 6
    case LoadOuter => 6
    case Branch => 7
    case LockOuter => 8
  }

  function Work(n: nat, s: State, t: Tid): int {
    var th := s.Thread(t);
    (Last(n, t) - th.i) * 8 + (if th.pc == Loop || th.pc == Done then Rank(th.pc) else Rank(th.pc) - 8)
  }

  function Measure(n: nat, s: State): int {
    Work(n, s, Upper) + Work(n, s, Lower)
  }

  lemma WorkNonNegative(n: nat, s: State, t: Tid)
    requires ThreadInv(n, s, t)
    ensures Work(n, s, t) >= 0
  {
  }

  lemma StepDecreases(n: nat, s: State, t: Tid)
    requires Enabled(s, t)
    ensures Measure(n, Step(n, s, t)) < Measure(n, s)
  {
  }

  /** Every run is finite, with at most eight steps for each number and one for each thread. */
  lemma {:induction false} RunsAreShort(n: nat, s: State, schedule: seq<Tid>, s': State)
    requires Inv(n, s) && Runs(n, s, schedule, s')
    ensures |schedule| <= Measure(n, s)
    ensures s == Init(n) ==> |schedule| <= 8 * n + 2
    decreases |schedule|
  {
    WorkNonNegative(n, s, Upper);
    WorkNonNegative(n, s, Lower);
    if schedule != [] {
      StepKeepsInv(n, s, schedule[0]);
      StepDecreases(n, s, schedule[0]);
      RunsAreShort(n, Step(n, s, schedule[0]), schedule[1..], s');
    }
  }

  lemma {:induction false} RunsCompose(n: nat, s0: State, a: seq<Tid>, s1: State, b: seq<Tid>, s2: State)
    requires Runs(n, s0, a, s1) && Runs(n, s1, b, s2)
    ensures Runs(n, s0, a + b, s2)
    decreases |a|
  {
    if a == [] {
      assert a + b == b;
    } else {
      RunsCompose(n, Step(n, s0, a[0]), a[1..], s1, b, s2);
      assert (a + b)[1..] == a[1..] + b;
    }
  }

  lemma RunsStep(n: nat, s: State, t: Tid, rest: seq<Tid>, s': State)
    requires Enabled(s, t) && Runs(n, Step(n, s, t), rest, s')
    ensures Runs(n, s, [t] + rest, s')
  {
  }

  /** Thread t alone, from the head of its loop, to the point where it wants the inner lock. */
  lemma ReachesInner(n: nat, s: State, t: Tid)
    requires s.Thread(t).pc == Loop && s.Thread(t).i < Last(n, t) && s.Mutex(Outer(t)).owner == None
    requires Class(s.Thread(t).i) == Inner(t)
    ensures Runs(n, s, [t, t, t], Acquire(s, t, Outer(t)).SetThread(t, s.Thread(t).(pc := LockInner)))
  {
    var s1 := Step(n, s, t);
    var s2 := Step(n, s1, t);
    var s3 := Step(n, s2, t);
    RunsStep(n, s2, t, [], s3);
    RunsStep(n, s1, t, [t], s3);
    RunsStep(n, s, t, [t, t], s3);
  }

  /** Thread t alone, through one whole iteration that only needs its outer lock. */
  lemma OuterIteration(n: nat, s: State, t: Tid) returns (s': State)
    requires s.Thread(t).pc == Loop && s.Thread(t).i < Last(n, t) && s.Mutex(Outer(t)).owner == None
    requires Class(s.Thread(t).i) == Outer(t)
    ensures Runs(n, s, [t, t, t, t, t, t], s')
    ensures s'.Thread(t).pc == Loop && s'.Thread(t).i == s.Thread(t).i + 1
    ensures s'.odd.owner == s.odd.owner && s'.even.owner == s.even.owner
    ensures forall u | u != t :: s'.Thread(u) == s.Thread(u)
  {
    var s1 := Step(n, s, t);
    var s2 := Step(n, s1, t);
    var s3 := Step(n, s2, t);
    var s4 := Step(n, s3, t);
    var s5 := Step(n, s4, t);
    s' := Step(n, s5, t);
    RunsStep(n, s5, t, [], s');
    RunsStep(n, s4, t, [t], s');
    RunsStep(n, s3, t, [t, t], s');
    RunsStep(n, s2, t, [t, t, t], s');
    RunsStep(n, s1, t, [t, t, t, t], s');
    RunsStep(n, s, t, [t, t, t, t, t], s');
  }

  /** With both threads at the head of their loops and no lock held, thread t can run until it
      holds its outer lock and wants the inner one, if one of its next two numbers asks for it. */
  lemma GetsStuckInside(n: nat, s: State, t: Tid) returns (schedule: seq<Tid>, s': State)
    requires s.Thread(t).pc == Loop && s.Mutex(Outer(t)).owner == None
    requires s.Thread(t).i + 1 < Last(n, t) || (s.Thread(t).i < Last(n, t) && Class(s.Thread(t).i) == Inner(t))
    ensures Runs(n, s, schedule, s')
    ensures s'.Thread(t).pc == LockInner && s'.Mutex(Outer(t)).owner == Some(t)
    ensures s'.Mutex(Inner(t)).owner == s.Mutex(Inner(t)).owner
    ensures forall u | u != t :: s'.Thread(u) == s.Thread(u)
  {
    schedule, s' := [], s;
    if Class(s.Thread(t).i) == Outer(t) {
      s' := OuterIteration(n, s, t);
      schedule := [t, t, t, t, t, t];
    }
    ReachesInner(n, s', t);
    var s'' := Acquire(s', t, Outer(t)).SetThread(t, s'.Thread(t).(pc := LockInner));
    RunsCompose(n, s, schedule, s', [t, t, t], s'');
    schedule, s' := schedule + [t, t, t], s'';
  }

  ghost predicate CanDeadlock(n: nat) {
    exists schedule, s :: Runs(n, Init(n), schedule, s) && CircularWait(s)
  }

  lemma DeadlockNeedsFour(n: nat, schedule: seq<Tid>, s: State)
    requires Runs(n, Init(n), schedule, s) && CircularWait(s)
    ensures n >= 4
  {
    Reachable(n, schedule, s);
    assert ThreadInv(n, s, Lower) && 1 <= s.lower.i < n / 2;
  }

  /** The program can deadlock exactly when nEntries is at least 4. */
  lemma DeadlockExactly(n: nat)
    ensures CanDeadlock(n) <==> n >= 4
  {
    if n >= 4 {
      var a, s1 := GetsStuckInside(n, Init(n), Upper);
      var b, s2 := GetsStuckInside(n, s1, Lower);
      RunsCompose(n, Init(n), a, s1, b, s2);
      Reachable(n, a + b, s2);
      assert s2.odd.owner == Some(Upper) <==> Inside(s2, Upper, Odd);
      assert Runs(n, Init(n), a + b, s2) && CircularWait(s2);
    }
    if CanDeadlock(n) {
      var schedule, s :| Runs(n, Init(n), schedule, s) && CircularWait(s);
      DeadlockNeedsFour(n, schedule, s);
    }
  }

  /** Below that, every run that cannot be extended has finished with the right counts. */
  lemma SmallCountsFinish(n: nat, schedule: seq<Tid>, s: State)
    requires n < 4 && Runs(n, Init(n), schedule, s) && !Enabled(s, Upper) && !Enabled(s, Lower)
    ensures Finished(s) && s.odd.value == n / 2 && s.even.value == (n + 1) / 2
  {
    StuckExactly(n, schedule, s);
    if CircularWait(s) {
      DeadlockNeedsFour(n, schedule, s);
    }
    FinishedCounts(n, schedule, s);
  }

  /** Thread t alone, through one whole iteration that nests the inner lock. */
  lemma InnerIteration(n: nat, s: State, t: Tid) returns (s': State)
    requires s.Thread(t).pc == Loop && s.Thread(t).i < Last(n, t)
    requires s.odd.owner == None && s.even.owner == None
    requires Class(s.Thread(t).i) == Inner(t)
    ensures Runs(n, s, [t, t, t, t, t, t, t, t], s')
    ensures s'.Thread(t).pc == Loop && s'.Thread(t).i == s.Thread(t).i + 1
    ensures s'.odd.owner == None && s'.even.owner == None
    ensures forall u | u != t :: s'.Thread(u) == s.Thread(u)
  {
    ReachesInner(n, s, t);
    var s3 := Acquire(s, t, Outer(t)).SetThread(t, s.Thread(t).(pc := LockInner));
    var s4 := Step(n, s3, t);
    var s5 := Step(n, s4, t);
    var s6 := Step(n, s5, t);
    var s7 := Step(n, s6, t);
    s' := Step(n, s7, t);
    RunsStep(n, s7, t, [], s');
    RunsStep(n, s6, t, [t], s');
    RunsStep(n, s5, t, [t, t], s');
    RunsStep(n, s4, t, [t, t, t], s');
    RunsStep(n, s3, t, [t, t, t, t], s');
    RunsCompose(n, s, [t, t, t], s3, [t, t, t, t, t], s');
    assert [t, t, t] + [t, t, t, t, t] == [t, t, t, t, t, t, t, t];
  }

  /** Thread t alone, with both locks free, runs to its end. */
  lemma {:induction false} SoloRunFinishes(n: nat, s: State, t: Tid) returns (schedule: seq<Tid>, s': State)
    requires s.Thread(t).pc == Loop && s.odd.owner == None && s.even.owner == None
    ensures Runs(n, s, schedule, s') && s'.Thread(t).pc == Done
    ensures s'.odd.owner == None && s'.even.owner == None
    ensures forall u | u != t :: s'.Thread(u) == s.Thread(u)
    decreases Last(n, t) - s.Thread(t).i
  {
    if s.Thread(t).i >= Last(n, t) {
      schedule, s' := [t], Step(n, s, t);
      RunsStep(n, s, t, [], s');
    } else {
      var first, s1;
      if Class(s.Thread(t).i) == Outer(t) {
        s1 := OuterIteration(n, s, t);
        first := [t, t, t, t, t, t];
      } else {
        s1 := InnerIteration(n, s, t);
        first := [t, t, t, t, t, t, t, t];
      }
      var rest;
      rest, s' := SoloRunFinishes(n, s1, t);
      RunsCompose(n, s, first, s1, rest, s');
      schedule := first + rest;
    }
  }

  /** Whatever nEntries is, some schedule lets the program finish. */
  lemma CanAlwaysFinish(n: nat)
    ensures exists schedule, s :: Runs(n, Init(n), schedule, s) && Finished(s)
  {
    var a, s1 := SoloRunFinishes(n, Init(n), Upper);
    var b, s2 := SoloRunFinishes(n, s1, Lower);
    RunsCompose(n, Init(n), a, s1, b, s2);
    assert Runs(n, Init(n), a + b, s2) && Finished(s2);
  }
}
