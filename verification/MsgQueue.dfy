/**
 The message queue of `system/platform/arm-cortex/common/osal/qosa_msg_queue.c` under every
 interleaving of its callers.

 A step is what one thread does between two points where another may run: the unlocked test for
 a full queue, taking the mutex, each update made under it, giving it back, and the kernel part
 of a semaphore call. The semaphore is the kernel's, as `OsalSem.RefinesKernel` allows.
 */
module MsgQueue {
  import opened Bytes
  import opened Threads
  import opened Wrappers

  const MAX_TOKENS: nat := 5

  type Message = seq<byte>

  /** Who may call what: producers qosa_msgq_release, consumers qosa_msgq_wait, or both. */
  datatype Config = Config(max: nat, producers: set<Tid>, consumers: set<Tid>)

  datatype Pc =
    | Idle
    // qosa_msgq_release
    | Checked(m: Message)     // the queue was not full
    | PutHolding(m: Message)  // mutex taken
    | PutDone                 // behind qosa_put, current_cnt not updated
    | PutCounted
    | Unlocked                // mutex given back, semaphore not released
    | Released(ok: bool)      // about to return what qosa_sem_release returned
    // qosa_msgq_wait
    | HasToken                // semaphore acquired
    | GetHolding              // mutex taken
    | GetDone(m: Message)     // copied out behind qosa_get, current_cnt not updated
    | GetCounted(m: Message)  // about to give the mutex back and return the message

  datatype State = State(
    items: seq<Message>,     // type_list
    currentCnt: nat,         // current_cnt
    tokens: nat,             // the kernel semaphore of event_sem
    mutex: Option<Tid>,      // event_mutex
    pc: map<Tid, Pc>,
    sent: seq<Message>,      // everything enqueued, in order
    received: seq<Message>,  // everything dequeued, in order
    failed: nat,             // releases the kernel refused
    crashed: bool)           // a NULL item was dereferenced

  datatype Action =
    | Start(m: Message) | LockPut | Put | CountPut | UnlockPut | Release | Return
    | Acquire | LockGet | Get | CountGet | UnlockGet

  predicate Can(c: Config, s: State, t: Tid, a: Action) {
    t in s.pc &&
    match a
    case Start(_) => t in c.producers && s.pc[t].Idle? && s.currentCnt < c.max
    case LockPut => s.pc[t].Checked? && s.mutex == None
    case Put => s.pc[t].PutHolding?
    case CountPut => s.pc[t].PutDone?
    case UnlockPut => s.pc[t].PutCounted?
    case Release => s.pc[t].Unlocked?
    case Return => s.pc[t].Released?
    case Acquire => t in c.consumers && s.pc[t].Idle? && 0 < s.tokens
    case LockGet => s.pc[t].HasToken? && s.mutex == None
    case Get => s.pc[t].GetHolding?
    case CountGet => s.pc[t].GetDone?
    case UnlockGet => s.pc[t].GetCounted?
  }

  function Do(c: Config, s: State, t: Tid, a: Action): State
    requires Can(c, s, t, a)
  {
    match a
    case Start(m) => s.(pc := s.pc[t := Checked(m)])
    case LockPut => s.(mutex := Some(t), pc := s.pc[t := PutHolding(s.pc[t].m)])
    case Put =>
      var m := s.pc[t].m;
      s.(items := s.items + [m], sent := s.sent + [m], pc := s.pc[t := PutDone])
    case CountPut =>
      s.(currentCnt := (s.currentCnt + 1) % U32, pc := s.pc[t := PutCounted])
    case UnlockPut => s.(mutex := None, pc := s.pc[t := Unlocked])
    case Release =>
      if s.tokens < MAX_TOKENS then s.(tokens := s.tokens + 1, pc := s.pc[t := Released(true)])
      else s.(failed := s.failed + 1, pc := s.pc[t := Released(false)])
    case Return => s.(pc := s.pc[t := Idle])
    case Acquire => s.(tokens := s.tokens - 1, pc := s.pc[t := HasToken])
    case LockGet => s.(mutex := Some(t), pc := s.pc[t := GetHolding])
    case Get =>
      if s.items == [] then s.(crashed := true, pc := s.pc[t := GetDone([])])
      else s.(items := s.items[1..], received := s.received + [s.items[0]],
              pc := s.pc[t := GetDone(s.items[0])])
    case CountGet =>
      s.(currentCnt := (s.currentCnt - 1 + U32) % U32, pc := s.pc[t := GetCounted(s.pc[t].m)])
    case UnlockGet => s.(mutex := None, pc := s.pc[t := Idle])
  }

  function Init(c: Config): State {
    State([], 0, 0, None, map t | t in c.producers + c.consumers :: Idle, [], [], 0, false)
  }

  type Schedule = seq<(Tid, Action)>

  predicate CanRun(c: Config, s: State, run: Schedule)
    decreases |run|
  {
    run == [] ||
    (Can(c, s, run[0].0, run[0].1) && CanRun(c, Do(c, s, run[0].0, run[0].1), run[1..]))
  }

  function Run(c: Config, s: State, run: Schedule): State
    requires CanRun(c, s, run)
    decreases |run|
  {
    if run == [] then s else Run(c, Do(c, s, run[0].0, run[0].1), run[1..])
  }

  // ----- The invariant -----

  /** The item is queued, its token not yet given. */
  predicate Owing(p: Pc) { p.PutDone? || p.PutCounted? || p.Unlocked? }

  /** A token was taken, the item not yet. */
  predicate Claiming(p: Pc) { p.HasToken? || p.GetHolding? }

  /** Past the unlocked test, not counted yet. */
  predicate Past(p: Pc) { p.Checked? || p.PutHolding? || p.PutDone? }

  predicate AtPutDone(p: Pc) { p.PutDone? }

  predicate AtGetDone(p: Pc) { p.GetDone? }

  predicate Holds(p: Pc) {
    p.PutHolding? || p.PutDone? || p.PutCounted? || p.GetHolding? || p.GetDone? || p.GetCounted?
  }

  ghost predicate Locking(s: State) {
    && (forall t :: t in s.pc && Holds(s.pc[t]) ==> s.mutex == Some(t))
    && (s.mutex.Some? ==> s.mutex.value in s.pc && Holds(s.pc[s.mutex.value]))
  }

  /** Every queued item is owed a token, has one, is claimed, or lost its token for good. */
  ghost predicate Conserved(s: State) {
    |s.items| == s.tokens + Num(s.pc, Owing) + Num(s.pc, Claiming) + s.failed
  }

  /** `current_cnt` is the length of the list, but for an update in progress. */
  ghost predicate Cached(s: State) {
    s.currentCnt + Num(s.pc, AtPutDone) == |s.items| + Num(s.pc, AtGetDone)
  }

  /** Producers past the unlocked test can push the count over the maximum, but only they. */
  ghost predicate Capped(c: Config, s: State) {
    s.currentCnt + Num(s.pc, Past) <= c.max + |c.producers| - 1
  }

  ghost predicate Roles(c: Config, s: State) {
    && s.pc.Keys == c.producers + c.consumers
    && (forall t :: t in s.pc && (Past(s.pc[t]) || Owing(s.pc[t])) ==> t in c.producers)
  }

  ghost predicate Ordered(s: State) {
    s.sent == s.received + s.items
  }

  ghost predicate Inv(c: Config, s: State) {
    && Roles(c, s)
    && Locking(s)
    && Conserved(s)
    && Cached(s)
    && Capped(c, s)
    && Ordered(s)
    && !s.crashed
    && s.tokens <= MAX_TOKENS
  }

  /** What qosa_msgq_create demands, and room in the 32-bit count. */
  ghost predicate Sane(c: Config) {
    0 < c.max && c.max + |c.producers| <= U32
  }

  lemma InitInv(c: Config)
    requires Sane(c)
    ensures Inv(c, Init(c))
  {
    hide Num;
    var pc := Init(c).pc;
    NoneThere(pc, Owing);
    NoneThere(pc, Claiming);
    NoneThere(pc, Past);
    NoneThere(pc, AtPutDone);
    NoneThere(pc, AtGetDone);
  }

  lemma StepLocking(c: Config, s: State, t: Tid, a: Action)
    requires Locking(s) && Can(c, s, t, a)
    ensures Locking(Do(c, s, t, a))
  {
  }

  /** A claim is never against an empty list: qosa_get cannot return NULL. */
  lemma ClaimIsBacked(s: State, t: Tid)
    requires Conserved(s) && t in s.pc && s.pc[t].GetHolding?
    ensures s.items != []
  {
    OneIsThere(s.pc, t, Claiming);
  }

  lemma StepConserved(c: Config, s: State, t: Tid, a: Action)
    requires Conserved(s) && Can(c, s, t, a)
    ensures Conserved(Do(c, s, t, a)) && (Do(c, s, t, a).crashed <==> s.crashed)
  {
    var p := Do(c, s, t, a).pc[t];
    assert Do(c, s, t, a).pc == s.pc[t := p];
    OneMoves(s.pc, t, p, Owing);
    OneMoves(s.pc, t, p, Claiming);
    if a.Get? {
      ClaimIsBacked(s, t);
    }
    hide Num;
  }

  lemma StepRoles(c: Config, s: State, t: Tid, a: Action)
    requires Roles(c, s) && s.tokens <= MAX_TOKENS && Can(c, s, t, a)
    ensures Roles(c, Do(c, s, t, a)) && Do(c, s, t, a).tokens <= MAX_TOKENS
  {
    var p := Do(c, s, t, a).pc[t];
    assert Do(c, s, t, a).pc == s.pc[t := p];
    assert (Past(p) || Owing(p)) ==> t in c.producers;
  }

  lemma StepOrdered(c: Config, s: State, t: Tid, a: Action)
    requires Ordered(s) && Can(c, s, t, a)
    ensures Ordered(Do(c, s, t, a))
  {
    if a.Get? && s.items != [] {
      assert s.items == [s.items[0]] + s.items[1..];
    }
  }

  /** Only the thread that holds the mutex is between an update of the list and its count. */
  lemma OneUpdate(s: State, t: Tid)
    requires Locking(s) && t in s.pc
    ensures s.pc[t].GetDone? ==> Num(s.pc, AtPutDone) == 0 && Num(s.pc, AtGetDone) == 1
    ensures s.pc[t].PutDone? ==> Num(s.pc, AtGetDone) == 0 && Num(s.pc, AtPutDone) == 1
  {
    if s.pc[t].GetDone? {
      NoneThere(s.pc, AtPutDone);
      OneIsThere(s.pc, t, AtGetDone);
      AtMostOne(s.pc, AtGetDone);
    } else if s.pc[t].PutDone? {
      NoneThere(s.pc, AtGetDone);
      OneIsThere(s.pc, t, AtPutDone);
      AtMostOne(s.pc, AtPutDone);
    }
  }

  lemma StepCached(c: Config, s: State, t: Tid, a: Action)
    requires Sane(c) && Locking(s) && Conserved(s) && Cached(s) && Capped(c, s)
    requires Can(c, s, t, a)
    ensures Cached(Do(c, s, t, a))
    ensures a.CountPut? ==> Do(c, s, t, a).currentCnt == s.currentCnt + 1
    ensures a.CountGet? ==> Do(c, s, t, a).currentCnt == s.currentCnt - 1
  {
    var p := Do(c, s, t, a).pc[t];
    assert Do(c, s, t, a).pc == s.pc[t := p];
    OneMoves(s.pc, t, p, AtPutDone);
    OneMoves(s.pc, t, p, AtGetDone);
    OneUpdate(s, t);
    if a.Get? {
      ClaimIsBacked(s, t);
    } else if a.CountPut? {
      OneIsThere(s.pc, t, Past);
    }
    hide Num, Locking, Conserved;
  }

  lemma StepCapped(c: Config, s: State, t: Tid, a: Action)
    requires Roles(c, s) && Capped(c, s) && Can(c, s, t, a)
    requires a.CountPut? ==> Do(c, s, t, a).currentCnt == s.currentCnt + 1
    requires a.CountGet? ==> Do(c, s, t, a).currentCnt == s.currentCnt - 1
    ensures Capped(c, Do(c, s, t, a))
  {
    var p := Do(c, s, t, a).pc[t];
    assert Do(c, s, t, a).pc == s.pc[t := p];
    OneMoves(s.pc, t, p, Past);
    if a.Start? {
      NoMoreThan(s.pc, Past, c.producers - {t});
    }
    hide Num, Roles;
  }

  lemma StepInv(c: Config, s: State, t: Tid, a: Action)
    requires Sane(c) && Inv(c, s) && Can(c, s, t, a)
    ensures Inv(c, Do(c, s, t, a))
  {
    StepLocking(c, s, t, a);
    StepConserved(c, s, t, a);
    StepRoles(c, s, t, a);
    StepOrdered(c, s, t, a);
    StepCached(c, s, t, a);
    StepCapped(c, s, t, a);
    hide Do, Can, Locking, Conserved, Cached, Capped, Roles, Ordered;
  }

  lemma {:induction false} RunInv(c: Config, s: State, run: Schedule)
    requires Sane(c) && Inv(c, s) && CanRun(c, s, run)
    ensures Inv(c, Run(c, s, run))
    decreases |run|
  {
    hide Do, Can, Inv;
    if run == [] {
    } else {
      StepInv(c, s, run[0].0, run[0].1);
      RunInv(c, Do(c, s, run[0].0, run[0].1), run[1..]);
    }
  }

  // ----- Every run of every queue -----

  /**
   A consumer never meets an empty list, messages come out in the order they went in, and the
   count is the length of the list whenever nobody holds the mutex. What is queued covers the
   tokens, the tokens still to be given and those already taken.
   */
  lemma Safety(c: Config, run: Schedule)
    requires Sane(c) && CanRun(c, Init(c), run)
    ensures var s := Run(c, Init(c), run);
      && !s.crashed
      && s.received <= s.sent
      && (s.mutex == None ==> s.currentCnt == |s.items|)
      && |s.items| == s.tokens + Num(s.pc, Owing) + Num(s.pc, Claiming) + s.failed
      && s.currentCnt <= c.max + |c.producers| - 1
  {
    InitInv(c);
    RunInv(c, Init(c), run);
    var s := Run(c, Init(c), run);
    hide Run, CanRun, Init, Num;
    if s.mutex == None {
      NoneThere(s.pc, AtPutDone);
      NoneThere(s.pc, AtGetDone);
    }
  }

  /** When everybody is done, the messages without a token are as many as the refused releases. */
  lemma Stranded(c: Config, run: Schedule)
    requires Sane(c) && CanRun(c, Init(c), run)
    requires forall t :: t in Run(c, Init(c), run).pc ==> Run(c, Init(c), run).pc[t] == Idle
    ensures var s := Run(c, Init(c), run);
      |s.items| == s.tokens + s.failed
  {
    Safety(c, run);
    var s := Run(c, Init(c), run);
    NoneThere(s.pc, Owing);
    NoneThere(s.pc, Claiming);
  }
}
