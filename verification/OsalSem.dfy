/**
 The counted semaphore of `system/platform/arm-cortex/common/osal/qosa_sem.c`: a kernel semaphore
 of at most five tokens and a shadow count, kept under a mutex of its own.

 Threads interleave at the granularity of kernel calls: taking a token happens outside the
 mutex, so the shadow count lags behind the tokens.
 */
module OsalSem {
  import opened Bytes
  import opened Threads
  import opened Wrappers

  const MAX_TOKENS: nat := 5
  const MAX_COUNT: nat := 0x7FFF_FFFF

  /** Where a thread is inside qosa_sem_wait or qosa_sem_release. */
  datatype Pc =
    | Outside
    | WaitLocking(acquired: bool)  // after osSemaphoreAcquire, before the mutex
    | WaitHolding(acquired: bool)
    | WaitLeaving(acquired: bool)
    | ReleaseHolding
    | ReleaseGiven(ok: bool)       // after osSemaphoreRelease, before count++
    | ReleaseLeaving(ok: bool)

  datatype State = State(count: nat, tokens: nat, lock: Option<Tid>, pc: map<Tid, Pc>)

  datatype Action =
    | Acquire | TimeOut | LockWait | CountDown | UnlockWait
    | LockRelease | Give | CountUp | UnlockRelease

  predicate Can(s: State, t: Tid, a: Action) {
    t in s.pc &&
    match a
    case Acquire => s.pc[t].Outside? && 0 < s.tokens
    case TimeOut => s.pc[t].Outside?
    case LockWait => s.pc[t].WaitLocking? && s.lock == None
    case CountDown => s.pc[t].WaitHolding?
    case UnlockWait => s.pc[t].WaitLeaving?
    case LockRelease => s.pc[t].Outside? && s.lock == None
    case Give => s.pc[t].ReleaseHolding?
    case CountUp => s.pc[t].ReleaseGiven?
    case UnlockRelease => s.pc[t].ReleaseLeaving?
  }

  function Do(s: State, t: Tid, a: Action): State
    requires Can(s, t, a)
  {
    match a
    case Acquire => s.(tokens := s.tokens - 1, pc := s.pc[t := WaitLocking(true)])
    case TimeOut => s.(pc := s.pc[t := WaitLocking(false)])
    case LockWait => s.(lock := Some(t), pc := s.pc[t := WaitHolding(s.pc[t].acquired)])
    case CountDown =>
      var c := if s.pc[t].acquired then (s.count - 1 + U32) % U32 else s.count;
      s.(count := c, pc := s.pc[t := WaitLeaving(s.pc[t].acquired)])
    case UnlockWait => s.(lock := None, pc := s.pc[t := Outside])
    case LockRelease => s.(lock := Some(t), pc := s.pc[t := ReleaseHolding])
    case Give =>
      if s.count < MAX_COUNT then
        if s.tokens < MAX_TOKENS then
          s.(tokens := s.tokens + 1, pc := s.pc[t := ReleaseGiven(true)])
        else
          s.(pc := s.pc[t := ReleaseGiven(false)])
      else
        s.(pc := s.pc[t := ReleaseGiven(true)])
    case CountUp =>
      var ok := s.pc[t].ok;
      s.(count := if ok then (s.count + 1) % U32 else s.count, pc := s.pc[t := ReleaseLeaving(ok)])
    case UnlockRelease => s.(lock := None, pc := s.pc[t := Outside])
  }

  /** qosa_sem_create: the kernel semaphore starts empty whatever the initial count. */
  function Init(threads: set<Tid>, initialCount: nat): State {
    State(initialCount, 0, None, map t | t in threads :: Outside)
  }

  type Schedule = seq<(Tid, Action)>

  predicate CanRun(s: State, run: Schedule)
    decreases |run|
  {
    run == [] || (Can(s, run[0].0, run[0].1) && CanRun(Do(s, run[0].0, run[0].1), run[1..]))
  }

  function Run(s: State, run: Schedule): State
    requires CanRun(s, run)
    decreases |run|
  {
    if run == [] then s else Run(Do(s, run[0].0, run[0].1), run[1..])
  }

  // ----- The invariant -----

  predicate Pending(p: Pc) {
    (p.WaitLocking? || p.WaitHolding?) && p.acquired
  }

  predicate Given(p: Pc) {
    p.ReleaseGiven? && p.ok
  }

  predicate Holds(p: Pc) {
    !p.Outside? && !p.WaitLocking?
  }

  /** Whoever is past the mutex and not yet out of it holds it. */
  ghost predicate Locking(s: State) {
    && (forall t :: t in s.pc && Holds(s.pc[t]) ==> s.lock == Some(t))
    && (s.lock.Some? ==> s.lock.value in s.pc && Holds(s.pc[s.lock.value]))
  }

  /**
   The shadow count, plus a release about to be counted, is the initial count plus the tokens
   plus the waiters that took one and have not counted down yet.
   */
  ghost predicate Counted(s: State, initialCount: nat) {
    s.count + Num(s.pc, Given) == initialCount + s.tokens + Num(s.pc, Pending)
  }

  ghost predicate Inv(s: State, initialCount: nat) {
    Locking(s) && s.tokens <= MAX_TOKENS && Counted(s, initialCount)
  }

  /** With this many threads no releasing thread finds the count at the limit. */
  ghost predicate Roomy(s: State, initialCount: nat) {
    s.pc.Keys == {} || initialCount + MAX_TOKENS + |s.pc.Keys| <= MAX_COUNT
  }

  lemma InitInv(threads: set<Tid>, initialCount: nat)
    ensures Inv(Init(threads, initialCount), initialCount)
  {
    var s := Init(threads, initialCount);
    NoneThere(s.pc, Given);
    NoneThere(s.pc, Pending);
  }

  /** Bounds the invariant implies: no wrap below zero, no wrap above, the limit never reached. */
  lemma Bounds(s: State, t: Tid, initialCount: nat)
    requires Inv(s, initialCount) && Roomy(s, initialCount) && t in s.pc
    ensures s.count <= MAX_COUNT
    ensures s.pc[t] == WaitHolding(true) ==> 0 < s.count
    ensures s.pc[t] == ReleaseHolding ==> s.count < MAX_COUNT
  {
    NoMoreThan(s.pc, Pending, s.pc.Keys);
    if s.pc[t] == WaitHolding(true) {
      OneIsThere(s.pc, t, Pending);
      NoneThere(s.pc, Given);
    } else if s.pc[t] == ReleaseHolding {
      NoMoreThan(s.pc, Pending, s.pc.Keys - {t});
    }
  }

  lemma StepLocking(s: State, t: Tid, a: Action)
    requires Locking(s) && Can(s, t, a)
    ensures Locking(Do(s, t, a))
  {
  }

  lemma StepInv(s: State, t: Tid, a: Action, initialCount: nat)
    requires Inv(s, initialCount) && Roomy(s, initialCount) && Can(s, t, a)
    ensures Inv(Do(s, t, a), initialCount) && Roomy(Do(s, t, a), initialCount)
  {
    hide Locking, Num;
    StepLocking(s, t, a);
    Bounds(s, t, initialCount);
    var s' := Do(s, t, a);
    assert s'.pc == s.pc[t := s'.pc[t]];
    assert s'.pc.Keys == s.pc.Keys;
    OneMoves(s.pc, t, s'.pc[t], Given);
    OneMoves(s.pc, t, s'.pc[t], Pending);
  }

  // ----- Every run -----

  lemma {:induction false} RunInv(s: State, run: Schedule, initialCount: nat)
    requires Inv(s, initialCount) && Roomy(s, initialCount) && CanRun(s, run)
    ensures Inv(Run(s, run), initialCount) && Roomy(Run(s, run), initialCount)
    decreases |run|
  {
    if run == [] {
    } else {
      StepInv(s, run[0].0, run[0].1, initialCount);
      RunInv(Do(s, run[0].0, run[0].1), run[1..], initialCount);
    }
  }

  /** In every interleaving of any number of waits and releases. */
  lemma ShadowCount(threads: set<Tid>, initialCount: nat, run: Schedule)
    requires threads == {} || initialCount + MAX_TOKENS + |threads| <= MAX_COUNT
    requires CanRun(Init(threads, initialCount), run)
    ensures var s := Run(Init(threads, initialCount), run);
      && Counted(s, initialCount)
      && s.tokens <= MAX_TOKENS
      && (forall t :: t in s.pc && s.pc[t] == WaitHolding(true) ==> 0 < s.count)
      && (forall t :: t in s.pc && s.pc[t] == ReleaseHolding ==> s.count < MAX_COUNT)
  {
    var s0 := Init(threads, initialCount);
    assert s0.pc.Keys == threads;
    InitInv(threads, initialCount);
    RunInv(s0, run, initialCount);
    var s := Run(s0, run);
    hide Run, CanRun, Init, Roomy, Num;
    forall t | t in s.pc
      ensures s.pc[t] == WaitHolding(true) ==> 0 < s.count
      ensures s.pc[t] == ReleaseHolding ==> s.count < MAX_COUNT
    {
      Bounds(s, t, initialCount);
    }
  }

  /** Between calls the count qosa_sem_get_cnt reports is right exactly for initial count 0. */
  lemma QuietCountExactIff(threads: set<Tid>, initialCount: nat, run: Schedule)
    requires threads == {} || initialCount + MAX_TOKENS + |threads| <= MAX_COUNT
    requires CanRun(Init(threads, initialCount), run)
    requires forall t :: t in threads ==>
      t in Run(Init(threads, initialCount), run).pc
      && Run(Init(threads, initialCount), run).pc[t] == Outside
    ensures var s := Run(Init(threads, initialCount), run);
      s.count == s.tokens <==> initialCount == 0
  {
    var s0 := Init(threads, initialCount);
    var s := Run(s0, run);
    ShadowCount(threads, initialCount, run);
    SameThreads(s0, run);
    NoneThere(s.pc, Given);
    NoneThere(s.pc, Pending);
  }

  lemma {:induction false} SameThreads(s: State, run: Schedule)
    requires CanRun(s, run)
    ensures Run(s, run).pc.Keys == s.pc.Keys
    decreases |run|
  {
    if run == [] {
    } else {
      assert Do(s, run[0].0, run[0].1).pc.Keys == s.pc.Keys;
      SameThreads(Do(s, run[0].0, run[0].1), run[1..]);
    }
  }

  /**
   Seen from outside, a wait takes one kernel token and a release adds one unless five are
   there; the shadow count never gets in the way. A release succeeds exactly when it adds one.
   */
  lemma RefinesKernel(s: State, t: Tid, a: Action, initialCount: nat)
    requires Inv(s, initialCount) && Roomy(s, initialCount) && Can(s, t, a)
    ensures var s' := Do(s, t, a);
      && (a.Acquire? ==> s'.tokens == s.tokens - 1)
      && (a.Give? ==> s'.tokens == Min(s.tokens + 1, MAX_TOKENS))
      && (a.Give? ==> (s'.pc[t] == ReleaseGiven(true) <==> s'.tokens == s.tokens + 1))
      && (!a.Acquire? && !a.Give? ==> s'.tokens == s.tokens)
  {
    Bounds(s, t, initialCount);
  }

  // ----- What the callers get -----

  /** A call of qosa_sem_wait or qosa_sem_release returns with this step. */
  predicate Returns(a: Action) {
    a.UnlockWait? || a.UnlockRelease?
  }

  function One(b: bool): nat {
    if b then 1 else 0
  }

  /** How many calls of `t` returned in a run with the result that the place `p` carries. */
  ghost function Came(s: State, run: Schedule, t: Tid, p: Pc): nat
    requires CanRun(s, run)
    decreases |run|
  {
    if run == [] then 0
    else
      One(run[0].0 == t && s.pc[t] == p && Returns(run[0].1))
      + Came(Do(s, run[0].0, run[0].1), run[1..], t, p)
  }

  /** How many tokens `t` took in a run, or how often it timed out. */
  function Waits(run: Schedule, t: Tid, a: Action): nat
    decreases |run|
  {
    if run == [] then 0 else One(run[0] == (t, a)) + Waits(run[1..], t, a)
  }

  /** How many releases of `t` found five tokens, or fewer, at the kernel call. */
  ghost function Gives(s: State, run: Schedule, t: Tid, full: bool): nat
    requires CanRun(s, run)
    decreases |run|
  {
    if run == [] then 0
    else
      One(run[0] == (t, Give) && (s.tokens == 5) == full)
      + Gives(Do(s, run[0].0, run[0].1), run[1..], t, full)
  }

  /** A wait whose result is decided and not returned yet. */
  predicate Decided(p: Pc, ok: bool) {
    (p.WaitLocking? || p.WaitHolding? || p.WaitLeaving?) && p.acquired == ok
  }

  /** The same of a release. */
  predicate Done(p: Pc, ok: bool) {
    (p.ReleaseGiven? || p.ReleaseLeaving?) && p.ok == ok
  }

  /** One step of anybody, seen by `t`. */
  lemma StepResults(s: State, u: Tid, a: Action, t: Tid, ok: bool, initialCount: nat)
    requires Inv(s, initialCount) && Roomy(s, initialCount) && Can(s, u, a) && t in s.pc
    ensures t in Do(s, u, a).pc
    ensures One(u == t && s.pc[t] == WaitLeaving(ok) && Returns(a)) + One(Decided(Do(s, u, a).pc[t], ok))
      == One(Decided(s.pc[t], ok)) + One((u, a) == (t, if ok then Acquire else TimeOut))
    ensures One(u == t && s.pc[t] == ReleaseLeaving(ok) && Returns(a)) + One(Done(Do(s, u, a).pc[t], ok))
      == One(Done(s.pc[t], ok)) + One((u, a) == (t, Give) && (s.tokens == 5) == !ok)
  {
    Bounds(s, u, initialCount);
    assert s.tokens <= 5;
    hide Inv, Roomy;
  }

  lemma {:induction false} RunWaits(s: State, run: Schedule, t: Tid, ok: bool, initialCount: nat)
    requires Inv(s, initialCount) && Roomy(s, initialCount) && CanRun(s, run) && t in s.pc
    ensures t in Run(s, run).pc
    ensures Came(s, run, t, WaitLeaving(ok)) + One(Decided(Run(s, run).pc[t], ok))
      == One(Decided(s.pc[t], ok)) + Waits(run, t, if ok then Acquire else TimeOut)
    decreases |run|
  {
    hide Do, Can, Inv, Roomy, Decided, Done, One, Returns;
    if run == [] {
    } else {
      StepResults(s, run[0].0, run[0].1, t, ok, initialCount);
      StepInv(s, run[0].0, run[0].1, initialCount);
      RunWaits(Do(s, run[0].0, run[0].1), run[1..], t, ok, initialCount);
    }
  }

  lemma {:induction false} RunReleases(s: State, run: Schedule, t: Tid, ok: bool, initialCount: nat)
    requires Inv(s, initialCount) && Roomy(s, initialCount) && CanRun(s, run) && t in s.pc
    ensures t in Run(s, run).pc
    ensures Came(s, run, t, ReleaseLeaving(ok)) + One(Done(Run(s, run).pc[t], ok))
      == One(Done(s.pc[t], ok)) + Gives(s, run, t, !ok)
    decreases |run|
  {
    hide Do, Can, Inv, Roomy, Decided, Done, One, Returns;
    if run == [] {
    } else {
      StepResults(s, run[0].0, run[0].1, t, ok, initialCount);
      StepInv(s, run[0].0, run[0].1, initialCount);
      RunReleases(Do(s, run[0].0, run[0].1), run[1..], t, ok, initialCount);
    }
  }

  /**
   In every interleaving each caller is told the truth: as many of its waits succeed as took a
   token and as many fail as timed out; as many of its releases succeed as found room in the
   kernel semaphore and as many fail as found its five tokens.
   */
  lemma ResultsAreTrue(threads: set<Tid>, initialCount: nat, run: Schedule, t: Tid, ok: bool)
    requires initialCount + 5 + |threads| <= 0x7FFF_FFFF
    requires CanRun(Init(threads, initialCount), run) && t in threads
    ensures t in Run(Init(threads, initialCount), run).pc
    ensures Came(Init(threads, initialCount), run, t, WaitLeaving(ok))
      + One(Decided(Run(Init(threads, initialCount), run).pc[t], ok))
      == Waits(run, t, if ok then Acquire else TimeOut)
    ensures Came(Init(threads, initialCount), run, t, ReleaseLeaving(ok))
      + One(Done(Run(Init(threads, initialCount), run).pc[t], ok))
      == Gives(Init(threads, initialCount), run, t, !ok)
  {
    var s0 := Init(threads, initialCount);
    InitInv(threads, initialCount);
    assert s0.pc.Keys == threads;
    RunWaits(s0, run, t, ok, initialCount);
    RunReleases(s0, run, t, ok, initialCount);
    assert s0.pc[t] == Outside;
    hide Run, CanRun, Inv, Roomy, Init, Came, Gives, Waits;
  }

  /** All that was taken out of the kernel semaphore, and all that was put in. */
  ghost function Taken(run: Schedule): nat
    decreases |run|
  {
    if run == [] then 0 else One(run[0].1.Acquire?) + Taken(run[1..])
  }

  ghost function Added(s: State, run: Schedule): nat
    requires CanRun(s, run)
    decreases |run|
  {
    if run == [] then 0
    else
      One(run[0].1.Give? && s.tokens != 5)
      + Added(Do(s, run[0].0, run[0].1), run[1..])
  }

  /** No token appears or disappears: what is there was added and not yet taken. */
  lemma {:induction false} TokensConserved(s: State, run: Schedule, initialCount: nat)
    requires Inv(s, initialCount) && Roomy(s, initialCount) && CanRun(s, run)
    ensures Run(s, run).tokens + Taken(run) == s.tokens + Added(s, run)
    decreases |run|
  {
    if run == [] {
    } else {
      var t, a := run[0].0, run[0].1;
      RefinesKernel(s, t, a, initialCount);
      StepInv(s, t, a, initialCount);
      assert s.tokens <= MAX_TOKENS;
      hide Do, Can, Inv, Roomy;
      TokensConserved(Do(s, t, a), run[1..], initialCount);
    }
  }

  // ----- The exact limit -----

  /**
   `k` releases were made, all by `t`; the threads in `waiting` have taken a token each and are
   waiting for the mutex; everybody else is outside.
   */
  ghost predicate Released(s: State, t: Tid, threads: set<Tid>, initialCount: nat, k: nat, waiting: set<Tid>) {
    && s.pc.Keys == threads && t in threads - waiting && s.lock == None
    && (forall u :: u in threads ==> s.pc[u] == if u in waiting then WaitLocking(true) else Outside)
    && s.count == initialCount + k && k == s.tokens + |waiting| && s.tokens <= MAX_TOKENS
  }

  lemma {:induction false} RunOn(s: State, a: Schedule, b: Schedule)
    requires CanRun(s, a) && CanRun(Run(s, a), b)
    ensures CanRun(s, a + b) && Run(s, a + b) == Run(Run(s, a), b)
    decreases |a|
  {
    hide Can, Do;
    if a == [] {
      assert a + b == b;
    } else {
      assert (a + b)[0] == a[0] && (a + b)[1..] == a[1..] + b;
      RunOn(Do(s, a[0].0, a[0].1), a[1..], b);
    }
  }

  lemma EmptyRun(s: State)
    ensures CanRun(s, []) && Run(s, []) == s
  {
  }

  lemma OneStep(s: State, t: Tid, a: Action, rest: Schedule) returns (run: Schedule)
    requires Can(s, t, a) && CanRun(Do(s, t, a), rest)
    ensures CanRun(s, run) && Run(s, run) == Run(Do(s, t, a), rest)
  {
    hide Can, Do;
    run := [(t, a)] + rest;
    assert run[1..] == rest;
  }

  /** `t` releases once more, below the limit. */
  lemma ReleaseOnce(s: State, t: Tid, threads: set<Tid>, initialCount: nat, k: nat, waiting: set<Tid>)
    returns (run: Schedule)
    requires Released(s, t, threads, initialCount, k, waiting)
    requires s.tokens < MAX_TOKENS && initialCount + k < MAX_COUNT
    ensures CanRun(s, run) && Released(Run(s, run), t, threads, initialCount, k + 1, waiting)
  {
    var s1 := Do(s, t, LockRelease);
    var s2 := Do(s1, t, Give);
    var s3 := Do(s2, t, CountUp);
    var s4 := Do(s3, t, UnlockRelease);
    assert Released(s4, t, threads, initialCount, k + 1, waiting);
    EmptyRun(s4);
    hide Run, CanRun, Released, Do, Can;
    run := OneStep(s3, t, UnlockRelease, []);
    run := OneStep(s2, t, CountUp, run);
    run := OneStep(s1, t, Give, run);
    run := OneStep(s, t, LockRelease, run);
  }

  /** Another thread takes a token and stops in front of the mutex. */
  lemma TakeOne(s: State, t: Tid, threads: set<Tid>, initialCount: nat, k: nat, waiting: set<Tid>, u: Tid)
    returns (run: Schedule)
    requires Released(s, t, threads, initialCount, k, waiting)
    requires 0 < s.tokens && u in threads - waiting && u != t
    ensures CanRun(s, run) && Released(Run(s, run), t, threads, initialCount, k, waiting + {u})
  {
    var s1 := Do(s, u, Acquire);
    assert Released(s1, t, threads, initialCount, k, waiting + {u});
    EmptyRun(s1);
    run := OneStep(s, u, Acquire, []);
  }

  /** As many releases as there are other threads to take a token, and five more. */
  lemma {:induction false} ReleaseMany(threads: set<Tid>, t: Tid, initialCount: nat, k: nat)
    returns (run: Schedule, waiting: set<Tid>)
    requires t in threads && k <= MAX_TOKENS + |threads| - 1
    requires k == 0 || initialCount + k <= MAX_COUNT
    ensures CanRun(Init(threads, initialCount), run)
    ensures Released(Run(Init(threads, initialCount), run), t, threads, initialCount, k, waiting)
    decreases k
  {
    var s0 := Init(threads, initialCount);
    if k == 0 {
      run, waiting := [], {};
      EmptyRun(s0);
    } else {
      run, waiting := ReleaseMany(threads, t, initialCount, k - 1);
      var s := Run(s0, run);
      hide Run, CanRun, Init, Can, Do;
      if s.tokens == MAX_TOKENS {
        Fewer(waiting, t, threads);
        var u :| u in threads - waiting - {t};
        var take := TakeOne(s, t, threads, initialCount, k - 1, waiting, u);
        RunOn(s0, run, take);
        run, waiting, s := run + take, waiting + {u}, Run(s, take);
      }
      var release := ReleaseOnce(s, t, threads, initialCount, k - 1, waiting);
      RunOn(s0, run, release);
      run := run + release;
    }
  }

  /** Not everybody else is waiting yet. */
  lemma Fewer(waiting: set<Tid>, t: Tid, threads: set<Tid>)
    requires t in threads && t !in waiting && |waiting| < |threads| - 1
    ensures threads - waiting - {t} != {}
  {
    if threads - waiting - {t} == {} {
      SubsetSize(threads, waiting + {t});
    }
  }

  /** At the limit a release hands out no token and counts one all the same. */
  lemma ReleaseAtLimit(s: State, t: Tid, threads: set<Tid>, initialCount: nat, k: nat, waiting: set<Tid>)
    returns (run: Schedule)
    requires Released(s, t, threads, initialCount, k, waiting) && MAX_COUNT <= initialCount + k
    ensures CanRun(s, run) && !Counted(Run(s, run), initialCount)
  {
    var s1 := Do(s, t, LockRelease);
    var s2 := Do(s1, t, Give);
    EmptyRun(s2);
    run := OneStep(s1, t, Give, []);
    run := OneStep(s, t, LockRelease, run);
    OneIsThere(s2.pc, t, Given);
    NoMoreThan(s2.pc, Pending, waiting);
  }

  /** The shadow count keeps up with the tokens, in every run, exactly up to this initial count. */
  lemma CountedIff(threads: set<Tid>, initialCount: nat)
    ensures (forall run :: CanRun(Init(threads, initialCount), run)
              ==> Counted(Run(Init(threads, initialCount), run), initialCount))
        <==> threads == {} || initialCount + 5 + |threads| <= 0x7FFF_FFFF
  {
    var s0 := Init(threads, initialCount);
    if threads == {} || initialCount + MAX_TOKENS + |threads| <= MAX_COUNT {
      forall run | CanRun(s0, run)
        ensures Counted(Run(s0, run), initialCount)
      {
        ShadowCount(threads, initialCount, run);
      }
    } else {
      var t :| t in threads;
      var k := if initialCount < MAX_COUNT then MAX_COUNT - initialCount else 0;
      assert |threads| >= 1;
      var run, waiting := ReleaseMany(threads, t, initialCount, k);
      var last := ReleaseAtLimit(Run(s0, run), t, threads, initialCount, k, waiting);
      RunOn(s0, run, last);
    }
  }
}
