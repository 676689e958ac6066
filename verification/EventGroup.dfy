/**
 The event group of `system/platform/arm-cortex/common/osal/qosa_event.c` under every interleaving
 of waiters and senders: 32 flags under a mutex, and a semaphore that wakes waiters up.
 */
module EventGroup {
  import opened Threads
  import opened Wrappers

  const MAX_TOKENS: nat := 5

  /** The option bits of qosa_event_recv. */
  datatype Mode = Mode(anyOf: bool, allOf: bool, keep: bool)

  function ModeOf(option: bv8): Mode {
    Mode(option & 1 != 0, option & 2 != 0, option & 4 != 0)
  }

  datatype Config = Config(waiters: set<Tid>, senders: set<Tid>)

  datatype Pc =
    | Idle
    // qosa_event_recv
    | Retrying(mask: bv32, mode: Mode)    // at the top of the loop
    | Testing(mask: bv32, mode: Mode)     // mutex taken
    | Returning(got: bv32)                // satisfied, about to give the mutex back
    | GivingUp(mask: bv32, mode: Mode)    // not satisfied, about to give the mutex back
    | Blocked(mask: bv32, mode: Mode)     // in qosa_sem_wait
    // qosa_event_send
    | Sending(bits: bv32)
    | Setting(bits: bv32)                 // mutex taken
    | Waking                              // flags set, semaphore not released
    | Sent                                // about to give the mutex back

  datatype State = State(flags: bv32, tokens: nat, mutex: Option<Tid>, pc: map<Tid, Pc>)

  datatype Action =
    | Receive(mask: bv32, option: bv8) | LockRecv | Test | UnlockReturn | UnlockBlock
    | Wake | TimeOut
    | Send(bits: bv32) | LockSend | SetFlags | ReleaseSem | UnlockSend

  function Masked(flags: bv32, mask: bv32): bv32 { flags & mask }

  function Without(flags: bv32, bits: bv32): bv32 { flags & !bits }

  function Joined(flags: bv32, bits: bv32): bv32 { flags | bits }

  predicate Satisfied(flags: bv32, mask: bv32, mode: Mode) {
    (mode.anyOf && Masked(flags, mask) != 0) || (mode.allOf && Masked(flags, mask) == mask)
  }

  predicate Can(c: Config, s: State, t: Tid, a: Action) {
    t in s.pc &&
    match a
    case Receive(_, _) => t in c.waiters && s.pc[t].Idle?
    case LockRecv => s.pc[t].Retrying? && s.mutex == None
    case Test => s.pc[t].Testing?
    case UnlockReturn => s.pc[t].Returning?
    case UnlockBlock => s.pc[t].GivingUp?
    case Wake => s.pc[t].Blocked? && 0 < s.tokens
    case TimeOut => s.pc[t].Blocked?
    case Send(_) => t in c.senders && s.pc[t].Idle?
    case LockSend => s.pc[t].Sending? && s.mutex == None
    case SetFlags => s.pc[t].Setting?
    case ReleaseSem => s.pc[t].Waking?
    case UnlockSend => s.pc[t].Sent?
  }

  function Do(c: Config, s: State, t: Tid, a: Action): State
    requires Can(c, s, t, a)
  {
    var p := s.pc[t];
    match a
    case Receive(mask, option) => s.(pc := s.pc[t := Retrying(mask, ModeOf(option))])
    case LockRecv => s.(mutex := Some(t), pc := s.pc[t := Testing(p.mask, p.mode)])
    case Test =>
      var got := Masked(s.flags, p.mask);
      if Satisfied(s.flags, p.mask, p.mode) then
        s.(flags := if p.mode.keep then s.flags else Without(s.flags, got), pc := s.pc[t := Returning(got)])
      else
        s.(pc := s.pc[t := GivingUp(p.mask, p.mode)])
    case UnlockReturn => s.(mutex := None, pc := s.pc[t := Idle])
    case UnlockBlock => s.(mutex := None, pc := s.pc[t := Blocked(p.mask, p.mode)])
    case Wake => s.(tokens := s.tokens - 1, pc := s.pc[t := Retrying(p.mask, p.mode)])
    case TimeOut => s.(pc := s.pc[t := Idle])
    case Send(bits) => s.(pc := s.pc[t := Sending(bits)])
    case LockSend => s.(mutex := Some(t), pc := s.pc[t := Setting(p.bits)])
    case SetFlags => s.(flags := Joined(s.flags, p.bits), pc := s.pc[t := Waking])
    case ReleaseSem =>
      s.(tokens := if s.tokens < MAX_TOKENS then s.tokens + 1 else s.tokens, pc := s.pc[t := Sent])
    case UnlockSend => s.(mutex := None, pc := s.pc[t := Idle])
  }

  function Init(c: Config): State {
    State(0, 0, None, map t | t in c.waiters + c.senders :: Idle)
  }

  type Schedule = seq<(Tid, Action)>

  predicate CanRun(c: Config, s: State, run: Schedule)
    decreases |run|
  {
    run == [] ||
    (Can(c, s, run[0].0, run[0].1) && CanRun(c, Do(c, s, run[0].0, run[0].1), run[1..]))
  }

  function Run(c: Config, s: State, run: Schedule): State
    requires CanRun(c, s, run)
    decreases |run|
  {
    if run == [] then s else Run(c, Do(c, s, run[0].0, run[0].1), run[1..])
  }

  // ----- One receive -----

  /**
   A satisfied test returns the masked flags. Unless told to keep them it removes exactly those,
   so no flag is returned twice and none outside the mask is touched.
   */
  lemma ReceiveTakesWhatItReturns(c: Config, s: State, t: Tid)
    requires Can(c, s, t, Test) && Satisfied(s.flags, s.pc[t].mask, s.pc[t].mode)
    ensures var s', mask, keep := Do(c, s, t, Test), s.pc[t].mask, s.pc[t].mode.keep;
      && s'.pc[t].Returning? && s'.pc[t].got == Masked(s.flags, mask)
      && (keep ==> s'.flags == s.flags)
      && (!keep ==> Disjoint(s'.flags, s'.pc[t].got) && Joined(s'.flags, s'.pc[t].got) == s.flags)
  {
    ClearsExactly(s.flags, s.pc[t].mask);
    hide Masked, Without, Satisfied, Disjoint, Joined;
  }

  predicate Disjoint(a: bv32, b: bv32) { a & b == 0 }

  lemma ClearsExactly(f: bv32, m: bv32)
    ensures var got := Masked(f, m);
      Disjoint(Without(f, got), got) && Joined(Without(f, got), got) == f
  {
  }

  // ----- No lost wakeup -----

  predicate Holds(p: Pc) {
    p.Testing? || p.Returning? || p.GivingUp? || p.Setting? || p.Waking? || p.Sent?
  }

  predicate Receiving(p: Pc) {
    p.Retrying? || p.Testing? || p.Returning? || p.GivingUp? || p.Blocked?
  }

  ghost predicate Locking(s: State) {
    && (forall t :: t in s.pc && Holds(s.pc[t]) ==> s.mutex == Some(t))
    && (s.mutex.Some? ==> s.mutex.value in s.pc && Holds(s.pc[s.mutex.value]))
  }

  ghost predicate Roles(c: Config, s: State) {
    && s.pc.Keys == c.waiters + c.senders
    && (forall t :: t in s.pc && Receiving(s.pc[t]) ==> t in c.waiters)
  }

  /** A wakeup is under way: a token is there, or a sender is about to give one. */
  ghost predicate WakeupDue(s: State) {
    0 < s.tokens || exists t :: t in s.pc && s.pc[t].Waking?
  }

  /** No thread waits for flags that are already there without a wakeup under way. */
  ghost predicate NoLostWakeup(s: State) {
    forall t :: t in s.pc && s.pc[t].Blocked? && Satisfied(s.flags, s.pc[t].mask, s.pc[t].mode)
      ==> WakeupDue(s)
  }

  /** A waiter that is giving up still has reason to: the flags cannot change under it. */
  ghost predicate Refused(s: State) {
    forall t :: t in s.pc && s.pc[t].GivingUp?
      ==> !Satisfied(s.flags, s.pc[t].mask, s.pc[t].mode)
  }

  ghost predicate Inv(c: Config, s: State) {
    Roles(c, s) && Locking(s) && Refused(s) && NoLostWakeup(s)
  }

  lemma StepRoles(c: Config, s: State, t: Tid, a: Action)
    requires Roles(c, s) && Can(c, s, t, a)
    ensures Roles(c, Do(c, s, t, a))
  {
    hide Masked, Without, Joined, Satisfied;
    var p := Do(c, s, t, a).pc[t];
    assert Do(c, s, t, a).pc == s.pc[t := p];
    assert Receiving(p) ==> t in c.waiters;
  }

  lemma StepLocking(c: Config, s: State, t: Tid, a: Action)
    requires Locking(s) && Can(c, s, t, a)
    ensures Locking(Do(c, s, t, a))
  {
    hide Masked, Without, Joined, Satisfied;
  }

  lemma StepRefused(c: Config, s: State, t: Tid, a: Action)
    requires Locking(s) && Refused(s) && Can(c, s, t, a)
    ensures Refused(Do(c, s, t, a))
  {
    hide Masked, Without, Joined, Satisfied;
  }

  /** The only waiter: whoever takes a token or flags is the one who was waiting for them. */
  lemma StepNoLostWakeup(c: Config, s: State, t: Tid, a: Action)
    requires |c.waiters| <= 1 && Inv(c, s) && Can(c, s, t, a)
    ensures NoLostWakeup(Do(c, s, t, a))
  {
    hide Masked, Without, Joined, Satisfied, Locking;
    var s' := Do(c, s, t, a);
    forall v | v in s'.pc && s'.pc[v].Blocked?
            && Satisfied(s'.flags, s'.pc[v].mask, s'.pc[v].mode)
      ensures WakeupDue(s')
    {
      if v != t {
        if t in c.waiters {
          OnlyOne(c.waiters, t, v);
        }
        if a.SetFlags? {
          assert s'.pc[t].Waking?;
        } else if !a.ReleaseSem? {
          StillDue(c, s, t, a);
        }
      }
    }
  }

  lemma StillDue(c: Config, s: State, t: Tid, a: Action)
    requires Can(c, s, t, a) && WakeupDue(s) && !a.Wake? && !a.ReleaseSem?
    ensures WakeupDue(Do(c, s, t, a))
  {
    hide Masked, Without, Joined, Satisfied;
    var s' := Do(c, s, t, a);
    if s.tokens == 0 {
      var u :| u in s.pc && s.pc[u].Waking?;
      assert u in s'.pc && s'.pc[u].Waking?;
    }
  }

  lemma StepInv(c: Config, s: State, t: Tid, a: Action)
    requires |c.waiters| <= 1 && Inv(c, s) && Can(c, s, t, a)
    ensures Inv(c, Do(c, s, t, a))
  {
    StepRoles(c, s, t, a);
    StepLocking(c, s, t, a);
    StepRefused(c, s, t, a);
    StepNoLostWakeup(c, s, t, a);
    hide Do, Can;
  }

  lemma OnlyOne(s: set<Tid>, u: Tid, v: Tid)
    requires |s| <= 1 && u in s && v in s
    ensures u == v
  {
    assert |s - {u}| == |s| - 1;
  }

  lemma {:induction false} RunInv(c: Config, s: State, run: Schedule)
    requires |c.waiters| <= 1 && Inv(c, s) && CanRun(c, s, run)
    ensures Inv(c, Run(c, s, run))
    decreases |run|
  {
    hide Do, Can, Inv;
    if run == [] {
    } else {
      StepInv(c, s, run[0].0, run[0].1);
      RunInv(c, Do(c, s, run[0].0, run[0].1), run[1..]);
    }
  }

  /** With one waiter, in every run: once nobody is at the flags, a satisfied waiter has a token. */
  lemma TokenForWaiter(c: Config, run: Schedule, t: Tid)
    requires |c.waiters| <= 1 && CanRun(c, Init(c), run)
    ensures var s := Run(c, Init(c), run);
      s.mutex == None && t in s.pc && s.pc[t].Blocked? && Satisfied(s.flags, s.pc[t].mask, s.pc[t].mode)
      ==> 0 < s.tokens
  {
    RunInv(c, Init(c), run);
    hide Run, CanRun, Satisfied;
  }

  // ----- The run that loses a wakeup -----

  lemma {:induction false} RunOn(c: Config, s: State, a: Schedule, b: Schedule)
    requires CanRun(c, s, a) && CanRun(c, Run(c, s, a), b)
    ensures CanRun(c, s, a + b) && Run(c, s, a + b) == Run(c, Run(c, s, a), b)
    decreases |a|
  {
    hide Can, Do;
    if a == [] {
      assert a + b == b;
    } else {
      assert (a + b)[0] == a[0] && (a + b)[1..] == a[1..] + b;
      RunOn(c, Do(c, s, a[0].0, a[0].1), a[1..], b);
    }
  }

  lemma OneStep(c: Config, s: State, t: Tid, a: Action, rest: Schedule) returns (run: Schedule)
    requires Can(c, s, t, a) && CanRun(c, Do(c, s, t, a), rest)
    ensures CanRun(c, s, run) && Run(c, s, run) == Run(c, Do(c, s, t, a), rest)
  {
    hide Can, Do;
    run := [(t, a)] + rest;
    assert run[1..] == rest;
  }

  lemma EmptyRun(c: Config, s: State)
    ensures CanRun(c, s, []) && Run(c, s, []) == s
  {
  }

  const ANY_OF := Mode(true, false, false)

  /** A waiter at the top of its loop that finds nothing blocks. */
  lemma BlockAgain(c: Config, s: State, t: Tid, mask: bv32) returns (run: Schedule)
    requires t in s.pc && s.mutex == None
    requires s.pc[t] == Retrying(mask, ANY_OF) && !Satisfied(s.flags, mask, ANY_OF)
    ensures CanRun(c, s, run)
    ensures Run(c, s, run) == s.(pc := s.pc[t := Blocked(mask, ANY_OF)])
  {
    hide Masked, Without, Joined, Satisfied;
    var s1 := Do(c, s, t, LockRecv);
    var s2 := Do(c, s1, t, Test);
    var s3 := Do(c, s2, t, UnlockBlock);
    assert s3 == s.(pc := s.pc[t := Blocked(mask, ANY_OF)]);
    EmptyRun(c, s3);
    hide Run, CanRun, Do, Can;
    run := OneStep(c, s2, t, UnlockBlock, []);
    run := OneStep(c, s1, t, Test, run);
    run := OneStep(c, s, t, LockRecv, run);
  }

  /** An idle thread that asks for flags that are not there blocks. */
  lemma Block(c: Config, s: State, t: Tid, mask: bv32) returns (run: Schedule)
    requires t in s.pc && t in c.waiters && s.mutex == None
    requires s.pc[t] == Idle && !Satisfied(s.flags, mask, ANY_OF)
    ensures CanRun(c, s, run)
    ensures Run(c, s, run) == s.(pc := s.pc[t := Blocked(mask, ANY_OF)])
  {
    hide Masked, Without, Joined, Satisfied;
    assert ModeOf(1) == ANY_OF;
    hide ModeOf;
    var s1 := Do(c, s, t, Receive(mask, 1));
    var rest := BlockAgain(c, s1, t, mask);
    hide Run, CanRun;
    assert s1.pc[t := Blocked(mask, ANY_OF)] == s.pc[t := Blocked(mask, ANY_OF)];
    run := OneStep(c, s, t, Receive(mask, 1), rest);
  }

  lemma SendOne(c: Config, s: State, t: Tid, bits: bv32) returns (run: Schedule)
    requires t in s.pc && t in c.senders && s.mutex == None && s.pc[t] == Idle
    requires s.tokens < MAX_TOKENS
    ensures CanRun(c, s, run)
    ensures Run(c, s, run) == s.(flags := Joined(s.flags, bits), tokens := s.tokens + 1)
  {
    hide Masked, Without, Joined, Satisfied;
    var s1 := Do(c, s, t, Send(bits));
    var s2 := Do(c, s1, t, LockSend);
    var s3 := Do(c, s2, t, SetFlags);
    var s4 := Do(c, s3, t, ReleaseSem);
    var s5 := Do(c, s4, t, UnlockSend);
    assert s5 == s.(flags := Joined(s.flags, bits), tokens := s.tokens + 1) by {
      assert s5.pc == s.pc;
    }
    EmptyRun(c, s5);
    hide Run, CanRun, Do;
    hide Can;
    run := OneStep(c, s4, t, UnlockSend, []);
    run := OneStep(c, s3, t, ReleaseSem, run);
    run := OneStep(c, s2, t, SetFlags, run);
    run := OneStep(c, s1, t, LockSend, run);
    run := OneStep(c, s, t, Send(bits), run);
  }

  /** A blocked waiter takes a token meant for somebody else and blocks again. */
  lemma StealToken(c: Config, s: State, t: Tid, mask: bv32) returns (run: Schedule)
    requires t in s.pc && s.mutex == None && 0 < s.tokens
    requires s.pc[t] == Blocked(mask, ANY_OF) && !Satisfied(s.flags, mask, ANY_OF)
    ensures CanRun(c, s, run)
    ensures Run(c, s, run) == s.(tokens := s.tokens - 1)
  {
    hide Masked, Without, Joined, Satisfied;
    var s1 := Do(c, s, t, Action.Wake);
    var rest := BlockAgain(c, s1, t, mask);
    hide Run, CanRun;
    assert s1.pc[t := Blocked(mask, ANY_OF)] == s.pc;
    run := OneStep(c, s, t, Action.Wake, rest);
  }

  /**
   Two waiters for different flags: `victim` waits for flag 1, which is sent; `thief`, waiting for
   flag 2, takes the only token. Nobody moves any more although `victim`'s flag is set.
   */
  lemma WakeupStolen(c: Config, victim: Tid, thief: Tid, sender: Tid) returns (run: Schedule)
    requires victim in c.waiters && thief in c.waiters && victim != thief
    requires sender in c.senders && sender != victim
    ensures CanRun(c, Init(c), run) && !NoLostWakeup(Run(c, Init(c), run))
  {
    var s0 := Init(c);
    var r1 := Block(c, s0, victim, 1);
    var s1 := Run(c, s0, r1);
    var r2 := SendOne(c, s1, sender, 1);
    var s2 := Run(c, s1, r2);
    var r3 := Block(c, s2, thief, 2);
    var s3 := Run(c, s2, r3);
    var r4 := StealToken(c, s3, thief, 2);
    var s4 := Run(c, s3, r4);
    hide Run, CanRun, Do, Can;
    RunOn(c, s2, r3, r4);
    RunOn(c, s1, r2, r3 + r4);
    RunOn(c, s0, r1, r2 + (r3 + r4));
    run := r1 + (r2 + (r3 + r4));
    assert s4.pc[victim] == Blocked(1, ANY_OF) && Satisfied(s4.flags, 1, ANY_OF);
  }

  // ----- Without senders -----

  /** No flag was ever set, so whoever blocked still has reason to. */
  ghost predicate Unsent(c: Config, s: State) {
    && s.flags == 0
    && (forall t :: t in s.pc ==> !s.pc[t].Sending? && !s.pc[t].Setting?)
    && (forall t :: t in s.pc && (s.pc[t].GivingUp? || s.pc[t].Blocked?)
          ==> !Satisfied(0, s.pc[t].mask, s.pc[t].mode))
  }

  lemma NothingToClear(bits: bv32)
    ensures Without(0, bits) == 0
  {
  }

  lemma StepUnsent(c: Config, s: State, t: Tid, a: Action)
    requires c.senders == {} && Unsent(c, s) && Can(c, s, t, a)
    ensures Unsent(c, Do(c, s, t, a))
  {
    if a.Test? {
      NothingToClear(Masked(s.flags, s.pc[t].mask));
    }
    hide Masked, Without, Joined, Satisfied;
  }

  lemma {:induction false} RunUnsent(c: Config, s: State, run: Schedule)
    requires c.senders == {} && Unsent(c, s) && CanRun(c, s, run)
    ensures Unsent(c, Run(c, s, run))
    decreases |run|
  {
    hide Do, Can, Unsent;
    if run == [] {
    } else {
      StepUnsent(c, s, run[0].0, run[0].1);
      RunUnsent(c, Do(c, s, run[0].0, run[0].1), run[1..]);
    }
  }

  /** No wakeup is lost, in any run, exactly when there is at most one waiter, or no sender. */
  lemma NoLostWakeupIff(c: Config)
    ensures (forall run :: CanRun(c, Init(c), run) ==> NoLostWakeup(Run(c, Init(c), run)))
        <==> |c.waiters| <= 1 || c.senders == {}
  {
    if |c.waiters| <= 1 {
      assert Inv(c, Init(c));
      forall run | CanRun(c, Init(c), run)
        ensures NoLostWakeup(Run(c, Init(c), run))
      {
        RunInv(c, Init(c), run);
      }
    } else if c.senders == {} {
      forall run | CanRun(c, Init(c), run)
        ensures NoLostWakeup(Run(c, Init(c), run))
      {
        RunUnsent(c, Init(c), run);
        hide Run, CanRun, Satisfied;
      }
    } else {
      var sender :| sender in c.senders;
      var some :| some in c.waiters;
      var thief := if sender in c.waiters then sender else some;
      assert |c.waiters - {thief}| >= 1;
      var victim :| victim in c.waiters - {thief};
      var run := WakeupStolen(c, victim, thief, sender);
    }
  }
}
