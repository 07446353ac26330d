/** agnostic_mutex.ml as interleaved steps. */
module AgnosticMutex {
  import opened Options

  // The threads call `lock`, `try_lock` and `unlock` in any order. Every access to the shared state is a step of its
  // own.

  datatype Op = Lock | TryLock | Unlock

  /** Where a thread is. `Outside` is outside all operations, `Enter(op)` before `Mutex.lock`; the `Exit` states are
      before the `Mutex.unlock` of `wrap_mutex`, which runs on errors too. */
  datatype Pc =
    | Outside | Enter(op: Op)
    | TryRead | TrySet(was: bool) | TryExit(was: bool)
    | LockTest | LockWait | Asleep | Woken | LockSet | LockExit
    | UnlockTest | UnlockSet | UnlockSignal | UnlockExit(ok: bool)

  /** `mtx` is the inner mutex and its holder, `locked` the field. What callers see is counted: operations that returned
      successfully, and which threads are between a returned `lock` and their next `unlock`. */
  datatype State = State(mtx: Option<nat>, locked: bool, pcs: seq<Pc>, inside: seq<bool>, acquired: nat, released: nat)

  datatype Step =
    | Call(i: nat, op: Op)
    | Advance(i: nat)
    | Signal(i: nat, j: nat)   // `Condition.signal` by i wakes j
    | Spurious(j: nat)         // a wake-up without a signal

  predicate Init(s: State) {
    s.mtx.None? && !s.locked && s.acquired == 0 && s.released == 0 && |s.inside| == |s.pcs| &&
    forall i :: 0 <= i < |s.pcs| ==> s.pcs[i] == Outside && !s.inside[i]
  }

  predicate Enabled(s: State, step: Step) {
    |s.inside| == |s.pcs| &&
    match step
    case Call(i, _) => i < |s.pcs| && s.pcs[i].Outside?
    case Advance(i) =>
      i < |s.pcs| &&
      (match s.pcs[i]
       case Outside => false
       case Asleep => false
       case Enter(_) => s.mtx.None?
       case Woken => s.mtx.None?
       case UnlockSignal => forall j :: 0 <= j < |s.pcs| ==> !s.pcs[j].Asleep?
       case _ => true)
    case Signal(i, j) => i < |s.pcs| && j < |s.pcs| && s.pcs[i].UnlockSignal? && s.pcs[j].Asleep?
    case Spurious(j) => j < |s.pcs| && s.pcs[j].Asleep?
  }

  function At(s: State, i: nat, pc: Pc): State
    requires i < |s.pcs|
  {
    s.(pcs := s.pcs[i := pc])
  }

  function Apply(s: State, step: Step): State
    requires Enabled(s, step)
  {
    match step
    case Call(i, op) => At(s, i, Enter(op)).(inside := if op.Unlock? then s.inside[i := false] else s.inside)
    case Advance(i) => AdvanceThread(s, i)
    case Signal(i, j) => At(At(s, i, UnlockExit(true)), j, Woken)
    case Spurious(j) => At(s, j, Woken)
  }

  function AdvanceThread(s: State, i: nat): State
    requires Enabled(s, Advance(i))
  {
    match s.pcs[i]
    case Enter(op) =>
      At(s, i, match op case Lock => LockTest case TryLock => TryRead case Unlock => UnlockTest).(mtx := Some(i))
    case TryRead => At(s, i, TrySet(s.locked))
    case TrySet(was) => At(s, i, TryExit(was)).(locked := true)
    case TryExit(was) => At(s, i, Outside).(mtx := None, acquired := s.acquired + if was then 0 else 1)
    case LockTest => At(s, i, if s.locked then LockWait else LockSet)
    case LockWait => At(s, i, Asleep).(mtx := None)
    case Woken => At(s, i, LockTest).(mtx := Some(i))
    case LockSet => At(s, i, LockExit).(locked := true)
    case LockExit => At(s, i, Outside).(mtx := None, acquired := s.acquired + 1, inside := s.inside[i := true])
    case UnlockTest => At(s, i, if s.locked then UnlockSet else UnlockExit(false))
    case UnlockSet => At(s, i, UnlockSignal).(locked := false)
    case UnlockSignal => At(s, i, UnlockExit(true))
    case UnlockExit(ok) => At(s, i, Outside).(mtx := None, released := s.released + if ok then 1 else 0)
  }

  // ----- the invariant -----

  /** The thread is between taking the inner mutex and giving it back. */
  predicate Holds(pc: Pc) { !pc.Outside? && !pc.Enter? && !pc.Asleep? && !pc.Woken? }

  /** What the holder of the inner mutex knows about `locked`. */
  predicate Knows(pc: Pc, locked: bool) {
    match pc
    case TrySet(was) => was == locked
    case TryExit(_) => locked
    case LockWait => locked
    case LockSet => !locked
    case LockExit => locked
    case UnlockSet => locked
    case UnlockSignal => !locked
    case UnlockExit(_) => !locked
    case _ => true
  }

  /** Acquisitions (positive) and releases that have happened but not returned. */
  function Pending(pc: Pc): int {
    match pc
    case TryExit(was) => if was then 0 else 1
    case LockExit => 1
    case UnlockSignal => -1
    case UnlockExit(ok) => if ok then -1 else 0
    case _ => 0
  }

  predicate Owned(s: State) {
    |s.inside| == |s.pcs| && (s.mtx.Some? ==> s.mtx.value < |s.pcs|) &&
    forall i: nat :: i < |s.pcs| ==> (Holds(s.pcs[i]) <==> s.mtx == Some(i)) && Knows(s.pcs[i], s.locked)
  }

  predicate Accounted(s: State)
    requires Owned(s)
  {
    s.acquired - s.released + (if s.mtx.Some? then Pending(s.pcs[s.mtx.value]) else 0) == if s.locked then 1 else 0
  }

  /** On its way to the lock, or about to send someone there. */
  predicate Moving(pc: Pc) { pc.Woken? || pc.LockTest? || pc.LockSet? || pc.UnlockSignal? }

  predicate SomeAsleep(s: State) { exists i: nat :: i < |s.pcs| && s.pcs[i].Asleep? }

  predicate SomeMoving(s: State) { exists i: nat :: i < |s.pcs| && Moving(s.pcs[i]) }

  predicate Inv(s: State) {
    Owned(s) && Accounted(s) && (!s.locked && SomeAsleep(s) ==> SomeMoving(s))
  }

  /** The thread whose step it is. */
  function Actor(step: Step): nat {
    match step case Call(i, _) => i case Advance(i) => i case Signal(i, _) => i case Spurious(j) => j
  }

  /** A step moves its thread, and a signal one sleeper; `locked` changes under the inner mutex only. */
  lemma StepFrame(s: State, step: Step, k: nat)
    requires Owned(s) && Enabled(s, step) && k < |s.pcs| && k != Actor(step)
    ensures var n := Apply(s, step);
            |n.pcs| == |s.pcs| == |n.inside| && n.inside[k] == s.inside[k] &&
            (n.pcs[k] == s.pcs[k] || (step == Signal(Actor(step), k) && s.pcs[k].Asleep? && n.pcs[k].Woken?)) &&
            (Holds(s.pcs[k]) ==> n.locked == s.locked && n.mtx == s.mtx) &&
            (!Holds(s.pcs[k]) ==> n.mtx != Some(k))
  {}

  /** What the step does to its own thread. */
  lemma ActorStep(s: State, step: Step)
    requires Owned(s) && Enabled(s, step)
    ensures var n, i := Apply(s, step), Actor(step);
            i < |n.pcs| == |s.pcs| == |n.inside| &&
            (Holds(n.pcs[i]) <==> n.mtx == Some(i)) && Knows(n.pcs[i], n.locked) &&
            (n.mtx.Some? ==> n.mtx == s.mtx || n.mtx == Some(i))
  {}

  lemma {:induction false} OwnedStep(s: State, step: Step)
    requires Owned(s) && Enabled(s, step)
    ensures Owned(Apply(s, step))
  {
    var n := Apply(s, step);
    ActorStep(s, step);
    forall k: nat | k < |n.pcs|
      ensures (Holds(n.pcs[k]) <==> n.mtx == Some(k)) && Knows(n.pcs[k], n.locked)
    {
      if k != Actor(step) { StepFrame(s, step, k); }
    }
  }

  lemma {:induction false} AccountedStep(s: State, step: Step)
    requires Owned(s) && Accounted(s) && Enabled(s, step) && Owned(Apply(s, step))
    ensures Accounted(Apply(s, step))
  {
    hide Owned;
    HolderUnderOwned(s, step);
  }

  lemma HolderUnderOwned(s: State, step: Step)
    requires Owned(s) && Enabled(s, step)
    ensures s.mtx.Some? ==> s.mtx.value < |s.pcs|
    ensures Holds(s.pcs[Actor(step)]) <==> s.mtx == Some(Actor(step))
    ensures Knows(s.pcs[Actor(step)], s.locked)
    ensures step.Signal? ==> s.mtx != Some(step.j)
  {}

  /** The step leaves the lock free while someone sleeps: someone is moving. */
  lemma {:induction false} WakeupStep(s: State, step: Step)
    requires Inv(s) && Enabled(s, step)
    ensures var n := Apply(s, step); !n.locked && SomeAsleep(n) ==> SomeMoving(n)
  {
    var n := Apply(s, step);
    if !n.locked && SomeAsleep(n) {
      match step
      case Signal(i, j) => assert Moving(n.pcs[j]);
      case Spurious(j) => assert Moving(n.pcs[j]);
      case Call(i, op) => WakeupCall(s, i, op);
      case Advance(i) => WakeupAdvance(s, i);
    }
  }

  lemma {:induction false} WakeupCall(s: State, i: nat, op: Op)
    requires Inv(s) && Enabled(s, Call(i, op)) && !s.locked && SomeAsleep(Apply(s, Call(i, op)))
    ensures SomeMoving(Apply(s, Call(i, op)))
  {
    var n := Apply(s, Call(i, op));
    var k: nat :| k < |n.pcs| && n.pcs[k].Asleep?;
    assert s.pcs[k].Asleep?;
    var m: nat :| m < |s.pcs| && Moving(s.pcs[m]);
    assert Moving(n.pcs[m]);
  }

  lemma {:induction false} WakeupAdvance(s: State, i: nat)
    requires Inv(s) && Enabled(s, Advance(i)) && !AdvanceThread(s, i).locked && SomeAsleep(AdvanceThread(s, i))
    ensures SomeMoving(AdvanceThread(s, i))
  {
    var n := AdvanceThread(s, i);
    var k: nat :| k < |n.pcs| && n.pcs[k].Asleep?;
    if Moving(n.pcs[i]) {
    } else {
      assert !s.locked && k != i;
      assert s.pcs[k].Asleep?;
      var m: nat :| m < |s.pcs| && Moving(s.pcs[m]);
      assert m != i;
      assert Moving(n.pcs[m]);
    }
  }

  // ----- runs -----

  predicate IsRun(s: State, steps: seq<Step>)
    decreases |steps|
  {
    steps == [] || (Enabled(s, steps[0]) && IsRun(Apply(s, steps[0]), steps[1..]))
  }

  function After(s: State, steps: seq<Step>): State
    requires IsRun(s, steps)
    decreases |steps|
  {
    if steps == [] then s else After(Apply(s, steps[0]), steps[1..])
  }

  lemma {:induction false} RunKeepsInvariant(s: State, steps: seq<Step>)
    requires Inv(s) && IsRun(s, steps)
    ensures Inv(After(s, steps))
    decreases |steps|
  {
    if steps != [] {
      OwnedStep(s, steps[0]);
      AccountedStep(s, steps[0]);
      WakeupStep(s, steps[0]);
      RunKeepsInvariant(Apply(s, steps[0]), steps[1..]);
    }
  }

  /** In every interleaving, whenever the inner mutex is free, successful acquisitions minus successful unlocks is 1
      when the lock is taken and 0 otherwise. */
  lemma {:induction false} AcquisitionsMinusReleases(s: State, steps: seq<Step>)
    requires Init(s) && IsRun(s, steps)
    ensures var n := After(s, steps);
            n.mtx.None? ==> n.acquired - n.released == if n.locked then 1 else 0
  {
    RunKeepsInvariant(s, steps);
  }

  /** No lost wake-up: whenever the lock is free, the inner mutex is free and a thread sleeps, some woken thread has yet
      to look at the lock. */
  lemma {:induction false} NoLostWakeup(s: State, steps: seq<Step>)
    requires Init(s) && IsRun(s, steps)
    ensures var n := After(s, steps);
            n.mtx.None? && !n.locked && SomeAsleep(n) ==> exists j: nat :: j < |n.pcs| && n.pcs[j].Woken?
  {
    RunKeepsInvariant(s, steps);
    var n := After(s, steps);
    if n.mtx.None? && !n.locked && SomeAsleep(n) {
      var j: nat :| j < |n.pcs| && Moving(n.pcs[j]);
      assert n.pcs[j].Woken?;
    }
  }

  // ----- what each operation does when nothing interferes -----

  /** The state with thread i outside again and the inner mutex free. */
  predicate Returned(s: State, n: State, i: nat, locked: bool, acquired: nat, released: nat) {
    i < |s.pcs| && n.mtx.None? && n.locked == locked && n.pcs == s.pcs[i := Outside] &&
    n.acquired == acquired && n.released == released
  }

  /** `unlock` of a lock that is taken gives it back and wakes one sleeper, whichever is chosen, if there is one. */
  lemma {:induction false} UnlockReleases(s: State, i: nat, j: nat)
    requires Inv(s) && s.mtx.None? && s.locked && i < |s.pcs| && s.pcs[i] == Enter(Unlock)
    requires SomeAsleep(s) ==> j < |s.pcs| && s.pcs[j].Asleep?
    ensures var a := Advance(i);
            var steps := [a, a, a, if SomeAsleep(s) then Signal(i, j) else a, a];
            IsRun(s, steps) && var n := After(s, steps);
            n.inside == s.inside &&
            Returned(if SomeAsleep(s) then At(s, j, Woken) else s, n, i, false, s.acquired, s.released + 1)
  {
    var a := Advance(i);
    UnlockReaches(s, i);
    var s3 := At(s, i, UnlockSignal).(mtx := Some(i), locked := false);
    forall k: nat | k < |s.pcs| ensures s3.pcs[k].Asleep? <==> s.pcs[k].Asleep? {}
    var b := if SomeAsleep(s) then Signal(i, j) else a;
    assert Enabled(s3, b);
    var s4 := Apply(s3, b);
    OneMore(s4, a, []);
    OneMore(s3, b, [a]);
    hide Enabled, Inv;
    var s1 := Apply(s, a);
    OneMore(Apply(s1, a), a, [b, a]);
    OneMore(s1, a, [a, b, a]);
    OneMore(s, a, [a, a, b, a]);
  }

  lemma {:induction false} UnlockReaches(s: State, i: nat)
    requires Inv(s) && s.mtx.None? && s.locked && i < |s.pcs| && s.pcs[i] == Enter(Unlock)
    ensures var a := Advance(i);
            Enabled(s, a) && var s1 := Apply(s, a);
            Enabled(s1, a) && var s2 := Apply(s1, a);
            Enabled(s2, a) && Apply(s2, a) == At(s, i, UnlockSignal).(mtx := Some(i), locked := false)
  {}

  /** `unlock` of a lock that is free fails, and changes nothing else. */
  lemma {:induction false} UnlockFails(s: State, i: nat)
    requires Inv(s) && s.mtx.None? && !s.locked && i < |s.pcs| && s.pcs[i] == Enter(Unlock)
    ensures var a := Advance(i);
            IsRun(s, [a, a, a]) && Apply(Apply(s, a), a).pcs == s.pcs[i := UnlockExit(false)] &&
            var n := After(s, [a, a, a]); n.inside == s.inside && Returned(s, n, i, false, s.acquired, s.released)
  {
    var a := Advance(i);
    var s1 := Apply(s, a);
    var s2 := Apply(s1, a);
    OneMore(s2, a, []);
    OneMore(s1, a, [a]);
    OneMore(s, a, [a, a]);
  }

  /** `try_lock` takes the lock if it is free, and otherwise returns without it. */
  lemma {:induction false} TryLockTries(s: State, i: nat)
    requires Inv(s) && s.mtx.None? && i < |s.pcs| && s.pcs[i] == Enter(TryLock)
    ensures var a := Advance(i);
            IsRun(s, [a, a, a, a]) && var n := After(s, [a, a, a, a]);
            n.inside == s.inside && Returned(s, n, i, true, s.acquired + if s.locked then 0 else 1, s.released)
  {
    var a := Advance(i);
    var s1 := Apply(s, a);
    var s2 := Apply(s1, a);
    var s3 := Apply(s2, a);
    OneMore(s3, a, []);
    OneMore(s2, a, [a]);
    OneMore(s1, a, [a, a]);
    OneMore(s, a, [a, a, a]);
  }

  /** `lock` takes a lock that is free. */
  lemma {:induction false} LockTakes(s: State, i: nat)
    requires Inv(s) && s.mtx.None? && !s.locked && i < |s.pcs| && s.pcs[i] == Enter(Lock)
    ensures var a := Advance(i);
            IsRun(s, [a, a, a, a]) && var n := After(s, [a, a, a, a]);
            n.inside == s.inside[i := true] && Returned(s, n, i, true, s.acquired + 1, s.released)
  {
    var a := Advance(i);
    var s1 := Apply(s, a);
    var s2 := Apply(s1, a);
    var s3 := Apply(s2, a);
    OneMore(s3, a, []);
    OneMore(s2, a, [a]);
    OneMore(s1, a, [a, a]);
    OneMore(s, a, [a, a, a]);
  }

  /** `lock` sleeps, with the inner mutex free, while the lock is taken; so does a thread woken then. */
  lemma {:induction false} LockSleeps(s: State, i: nat)
    requires Inv(s) && s.mtx.None? && s.locked && i < |s.pcs| && (s.pcs[i] == Enter(Lock) || s.pcs[i].Woken?)
    ensures var a := Advance(i);
            IsRun(s, [a, a, a]) && After(s, [a, a, a]) == At(s, i, Asleep)
  {
    var a := Advance(i);
    var s1 := Apply(s, a);
    var s2 := Apply(s1, a);
    OneMore(s2, a, []);
    OneMore(s1, a, [a]);
    OneMore(s, a, [a, a]);
  }

  /** Such a thread gets the lock by its own steps alone. */
  lemma {:induction false} WokenAcquires(s: State, j: nat)
    requires Inv(s) && s.mtx.None? && !s.locked && j < |s.pcs| && s.pcs[j].Woken?
    ensures var a := Advance(j);
            IsRun(s, [a, a, a, a]) && var n := After(s, [a, a, a, a]);
            n.mtx.None? && n.locked && j < |n.inside| && n.inside[j] && n.acquired == s.acquired + 1
  {
    var a := Advance(j);
    var s1 := Apply(s, a);
    var s2 := Apply(s1, a);
    var s3 := Apply(s2, a);
    OneMore(s3, a, []);
    OneMore(s2, a, [a]);
    OneMore(s1, a, [a, a]);
    OneMore(s, a, [a, a, a]);
  }

  lemma {:induction false} OneMore(s: State, step: Step, rest: seq<Step>)
    requires Enabled(s, step) && IsRun(Apply(s, step), rest)
    ensures IsRun(s, [step] + rest) && After(s, [step] + rest) == After(Apply(s, step), rest)
  {
    assert ([step] + rest)[1..] == rest;
  }

  // ----- the inner mutex is held for a few steps only -----

  function StepsLeft(pc: Pc): nat {
    match pc
    case TryRead => 3 case TrySet(_) => 2 case TryExit(_) => 1
    case LockTest => 3 case LockWait => 1 case LockSet => 2 case LockExit => 1
    case UnlockTest => 4 case UnlockSet => 3 case UnlockSignal => 2 case UnlockExit(_) => 1
    case _ => 0
  }

  /** The holder can always go on, is not disturbed by others, and gives the inner mutex back after at most four
      steps. */
  lemma {:induction false} HolderFinishes(s: State, i: nat, step: Step)
    requires Inv(s) && s.mtx == Some(i)
    ensures 1 <= StepsLeft(s.pcs[i]) <= 4
    ensures exists own: Step :: Actor(own) == i && Enabled(s, own)
    ensures Enabled(s, step) && Actor(step) == i ==>
              var n := Apply(s, step);
              if StepsLeft(s.pcs[i]) == 1 then n.mtx.None?
              else n.mtx == Some(i) && StepsLeft(n.pcs[i]) < StepsLeft(s.pcs[i])
    ensures Enabled(s, step) && Actor(step) != i ==> var n := Apply(s, step); n.mtx == Some(i) && n.pcs[i] == s.pcs[i]
  {
    if s.pcs[i].UnlockSignal? && SomeAsleep(s) {
      var j: nat :| j < |s.pcs| && s.pcs[j].Asleep?;
      assert Actor(Signal(i, j)) == i && Enabled(s, Signal(i, j));
    } else {
      assert Actor(Advance(i)) == i && Enabled(s, Advance(i));
    }
  }

  // ----- critical sections -----

  /** A step of a program in which every thread only runs `critical_section`: it locks when it is outside, and unlocks
      when and only when it is inside. */
  predicate Disciplined(s: State, step: Step) {
    |s.inside| == |s.pcs| &&
    (step.Call? && step.i < |s.pcs| ==>
      if s.inside[step.i] then step.op.Unlock? else step.op.Lock?)
  }

  predicate DisciplinedRun(s: State, steps: seq<Step>)
    decreases |steps|
  {
    steps == [] || (Disciplined(s, steps[0]) && Enabled(s, steps[0]) && DisciplinedRun(Apply(s, steps[0]), steps[1..]))
  }

  /** The thread has the lock: it has taken it, and not yet given it back. */
  predicate Owner(s: State, i: nat)
    requires i < |s.pcs| == |s.inside|
  {
    s.inside[i] || s.pcs[i].LockExit? || s.pcs[i] == Enter(Unlock) || s.pcs[i].UnlockTest? || s.pcs[i].UnlockSet?
  }

  /** Inside a critical section a thread is outside all operations, and no thread is at a `try_lock` or a failing
      `unlock`. */
  predicate InSection(s: State, i: nat)
    requires i < |s.pcs| == |s.inside|
  {
    (s.inside[i] ==> s.pcs[i].Outside?) &&
    s.pcs[i] != Enter(TryLock) && !s.pcs[i].TryRead? && !s.pcs[i].TrySet? && !s.pcs[i].TryExit? &&
    s.pcs[i] != UnlockExit(false)
  }

  predicate Exclusive(s: State) {
    Owned(s) &&
    (forall i: nat :: i < |s.pcs| ==> InSection(s, i)) &&
    (forall i: nat :: i < |s.pcs| && Owner(s, i) ==> s.locked) &&
    (forall i: nat, j: nat :: i < |s.pcs| && j < |s.pcs| && Owner(s, i) && Owner(s, j) ==> i == j)
  }

  /** Every thread stays within the discipline. */
  lemma {:induction false} SectionStep(s: State, step: Step, k: nat)
    requires Exclusive(s) && Enabled(s, step) && Disciplined(s, step) && k < |s.pcs|
    ensures var n := Apply(s, step); k < |n.pcs| == |n.inside| && InSection(n, k)
  {
    assert InSection(s, k) && InSection(s, Actor(step));
    if k != Actor(step) {
      StepFrame(s, step, k);
    } else {
      assert Owner(s, k) ==> s.locked;
      assert Knows(s.pcs[k], s.locked);
    }
  }

  /** Only `locked <- true` in `lock` makes a new owner, and it finds the lock free. */
  lemma {:induction false} OwnersStep(s: State, step: Step, k: nat)
    requires Exclusive(s) && Enabled(s, step) && Disciplined(s, step) && k < |s.pcs|
    ensures var n := Apply(s, step);
            k < |n.pcs| == |n.inside| && InSection(n, k) &&
            (Owner(n, k) ==>
              Owner(s, k) || (k == Actor(step) && step.Advance? && s.pcs[k].LockSet? && !s.locked && n.locked))
  {
    SectionStep(s, step, k);
    assert InSection(s, k);
    hide InSection;
    if k != Actor(step) {
      StepFrame(s, step, k);
    } else {
      assert Knows(s.pcs[k], s.locked);
      hide Exclusive;
    }
  }

  /** `locked <- false` is done by the owner. */
  lemma {:induction false} UnlockedByOwner(s: State, step: Step)
    requires Exclusive(s) && Enabled(s, step) && s.locked && !Apply(s, step).locked
    ensures step.Advance? && s.pcs[step.i].UnlockSet? && Owner(s, step.i)
    ensures var n := Apply(s, step); step.i < |n.pcs| == |n.inside| && !Owner(n, step.i)
  {
    assert InSection(s, Actor(step));
  }

  lemma {:induction false} ExclusiveStep(s: State, step: Step)
    requires Exclusive(s) && Enabled(s, step) && Disciplined(s, step)
    ensures Exclusive(Apply(s, step))
  {
    var n := Apply(s, step);
    OwnedStep(s, step);
    if s.locked && !n.locked { UnlockedByOwner(s, step); }
    forall k: nat | k < |n.pcs|
      ensures InSection(n, k) && (Owner(n, k) ==> n.locked)
      ensures Owner(n, k) ==> Owner(s, k) || (k == Actor(step) && !s.locked)
    {
      OwnersStep(s, step, k);
      assert Owner(s, k) ==> s.locked;
    }
    hide Apply, Enabled, InSection, Owner, Disciplined, Owned;
  }

  lemma {:induction false} RunKeepsExclusive(s: State, steps: seq<Step>)
    requires Exclusive(s) && DisciplinedRun(s, steps)
    ensures IsRun(s, steps) && Exclusive(After(s, steps))
    decreases |steps|
  {
    if steps != [] {
      ExclusiveStep(s, steps[0]);
      RunKeepsExclusive(Apply(s, steps[0]), steps[1..]);
    }
  }

  /** Threads that only use `critical_section` exclude each other, and their unlocks never fail. */
  lemma {:induction false} MutualExclusion(s: State, steps: seq<Step>)
    requires Init(s) && DisciplinedRun(s, steps)
    ensures IsRun(s, steps)
    ensures var n := After(s, steps);
            |n.inside| == |n.pcs| &&
            (forall i: nat, j: nat :: i < |n.pcs| && j < |n.pcs| && n.inside[i] && n.inside[j] ==> i == j) &&
            (forall i: nat :: i < |n.pcs| ==> n.pcs[i] != UnlockExit(false)) &&
            (forall i: nat :: i < |n.pcs| && n.inside[i] ==> n.locked)
  {
    RunKeepsExclusive(s, steps);
    var n := After(s, steps);
    forall i: nat | i < |n.pcs|
      ensures n.pcs[i] != UnlockExit(false) && (n.inside[i] ==> Owner(n, i))
    {
      assert InSection(n, i);
    }
  }
}
