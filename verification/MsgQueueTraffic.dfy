/**
 What goes through the message queue and what its callers are told, said of the schedule alone:
 which calls were made with which messages, and in which order their updates took place.
 */
module MsgQueueTraffic {
  import opened Bytes
  import opened Threads
  import opened Wrappers
  import opened MsgQueue

  // ----- The schedule -----

  /** The message of the latest call of qosa_msgq_release by `t`. */
  function Latest(run: Schedule, t: Tid): Message
    decreases |run|
  {
    if run == [] then []
    else
      var (u, a) := run[|run| - 1];
      if u == t && a.Start? then a.m else Latest(run[..|run| - 1], t)
  }

  /** The messages put, in the order of the puts: each the one its caller passed in. */
  function Submitted(run: Schedule): seq<Message>
    decreases |run|
  {
    if run == [] then []
    else
      var before, u, a := run[..|run| - 1], run[|run| - 1].0, run[|run| - 1].1;
      Submitted(before) + if a.Put? then [Latest(before, u)] else []
  }

  /** What a step returns to a caller of qosa_msgq_wait. */
  ghost function Out(s: State, t: Tid, a: Action): seq<Message> {
    if a.UnlockGet? && t in s.pc && s.pc[t].GetCounted? then [s.pc[t].m] else []
  }

  /** The messages returned by qosa_msgq_wait, in the order of the returns. */
  ghost function Returned(c: Config, s: State, run: Schedule): seq<Message>
    requires CanRun(c, s, run)
    decreases |run|
  {
    if run == [] then []
    else Out(s, run[0].0, run[0].1) + Returned(c, Do(c, s, run[0].0, run[0].1), run[1..])
  }

  lemma {:induction false} LastStep(c: Config, s: State, run: Schedule)
    requires CanRun(c, s, run) && run != []
    ensures var before, t, a := run[..|run| - 1], run[|run| - 1].0, run[|run| - 1].1;
      && CanRun(c, s, before) && Can(c, Run(c, s, before), t, a)
      && Run(c, s, run) == Do(c, Run(c, s, before), t, a)
      && Returned(c, s, run) == Returned(c, s, before) + Out(Run(c, s, before), t, a)
    decreases |run|
  {
    hide Can, Do, Out;
    var s1 := Do(c, s, run[0].0, run[0].1);
    if |run| == 1 {
      assert run[..0] == [] && run[1..] == [];
    } else {
      var rest := run[1..];
      assert run[..|run| - 1][1..] == rest[..|rest| - 1];
      LastStep(c, s1, rest);
    }
  }

  // ----- The state follows the schedule -----

  /** The message a consumer has taken out and not returned yet. */
  ghost function InHand(s: State): seq<Message> {
    if s.mutex.Some? && s.mutex.value in s.pc
       && (s.pc[s.mutex.value].GetDone? || s.pc[s.mutex.value].GetCounted?)
    then [s.pc[s.mutex.value].m] else []
  }

  /** A producer on its way carries the message it was called with. */
  ghost predicate Carried(s: State, run: Schedule) {
    forall t :: t in s.pc && (s.pc[t].Checked? || s.pc[t].PutHolding?) ==> s.pc[t].m == Latest(run, t)
  }

  lemma StepCarried(c: Config, s: State, run: Schedule, t: Tid, a: Action)
    requires Carried(s, run) && Can(c, s, t, a)
    ensures Carried(Do(c, s, t, a), run + [(t, a)])
  {
    var s', all := Do(c, s, t, a), run + [(t, a)];
    assert all[..|run|] == run;
    forall u | u in s'.pc && (s'.pc[u].Checked? || s'.pc[u].PutHolding?)
      ensures s'.pc[u].m == Latest(all, u)
    {
      assert Latest(all, u) == if u == t && a.Start? then a.m else Latest(run, u);
      hide Latest;
    }
  }

  lemma StepSent(c: Config, s: State, run: Schedule, t: Tid, a: Action)
    requires Carried(s, run) && s.sent == Submitted(run) && Can(c, s, t, a)
    ensures Do(c, s, t, a).sent == Submitted(run + [(t, a)])
  {
    var all := run + [(t, a)];
    assert all[..|run|] == run;
    assert Submitted(all) == Submitted(run) + if a.Put? then [Latest(run, t)] else [];
    hide Submitted, Latest;
  }

  lemma StepReceived(c: Config, s: State, t: Tid, a: Action, returned: seq<Message>)
    requires Locking(s) && Conserved(s) && s.received == returned + InHand(s) && Can(c, s, t, a)
    ensures var s' := Do(c, s, t, a); s'.received == returned + Out(s, t, a) + InHand(s')
  {
    if a.Get? {
      ClaimIsBacked(s, t);
    }
    hide Conserved;
  }

  /** What was put is what the callers passed in, what was taken out was returned or is in hand. */
  ghost predicate Follows(s: State, run: Schedule, returned: seq<Message>) {
    && Carried(s, run)
    && s.sent == Submitted(run)
    && s.received == returned + InHand(s)
  }

  lemma StepFollows(c: Config, s: State, run: Schedule, t: Tid, a: Action, returned: seq<Message>)
    requires Inv(c, s) && Follows(s, run, returned) && Can(c, s, t, a)
    ensures Follows(Do(c, s, t, a), run + [(t, a)], returned + Out(s, t, a))
  {
    assert Locking(s) && Conserved(s);
    hide Inv, Locking, Conserved, Submitted, Carried, InHand, Out, Do, Can;
    StepCarried(c, s, run, t, a);
    StepSent(c, s, run, t, a);
    StepReceived(c, s, t, a, returned);
  }

  /** In every run, at every moment. */
  lemma {:induction false} FollowsSchedule(c: Config, run: Schedule)
    requires Sane(c) && CanRun(c, Init(c), run)
    ensures Follows(Run(c, Init(c), run), run, Returned(c, Init(c), run))
    decreases |run|
  {
    if run == [] {
      Nothing(c);
    } else {
      hide Run, CanRun, Returned, Out, Init, Do, Can, Inv, Follows, Sane;
      var before, t, a := run[..|run| - 1], run[|run| - 1].0, run[|run| - 1].1;
      LastStep(c, Init(c), run);
      FollowsSchedule(c, before);
      ReachedInv(c, before);
      StepFollows(c, Run(c, Init(c), before), before, t, a, Returned(c, Init(c), before));
      assert before + [(t, a)] == run;
    }
  }

  lemma ReachedInv(c: Config, run: Schedule)
    requires Sane(c) && CanRun(c, Init(c), run)
    ensures Inv(c, Run(c, Init(c), run))
  {
    InitInv(c);
    RunInv(c, Init(c), run);
  }

  lemma Nothing(c: Config)
    ensures CanRun(c, Init(c), []) && Follows(Init(c), [], Returned(c, Init(c), []))
    ensures Run(c, Init(c), []) == Init(c)
  {
  }

  /** What consumers get is what producers sent, complete and in order, as far as they have got. */
  lemma Delivers(c: Config, run: Schedule)
    requires Sane(c) && CanRun(c, Init(c), run)
    ensures Returned(c, Init(c), run) <= Submitted(run)
    ensures Run(c, Init(c), run).mutex == None ==>
      Submitted(run) == Returned(c, Init(c), run) + Run(c, Init(c), run).items
  {
    hide Run, CanRun, Returned, Submitted, Init, Locking, Conserved, Cached, Capped, Roles, Carried;
    FollowsSchedule(c, run);
    InitInv(c);
    RunInv(c, Init(c), run);
    var s := Run(c, Init(c), run);
    assert s.sent == s.received + s.items;
    hide Inv, Ordered;
    InFront(Returned(c, Init(c), run), InHand(s), s.items);
  }

  lemma InFront(a: seq<Message>, b: seq<Message>, c: seq<Message>)
    ensures a <= a + b + c && (b == [] ==> a + b + c == a + c)
  {
  }

  // ----- What producers are told -----

  function One(b: bool): nat {
    if b then 1 else 0
  }

  /** How many releases of `t` returned in a run with this result. */
  ghost function Came(c: Config, s: State, run: Schedule, t: Tid, ok: bool): nat
    requires CanRun(c, s, run)
    decreases |run|
  {
    if run == [] then 0
    else
      One(run[0] == (t, Return) && s.pc[t] == Released(ok))
      + Came(c, Do(c, s, run[0].0, run[0].1), run[1..], t, ok)
  }

  /** How many releases of `t` found five tokens at the semaphore, or fewer. */
  ghost function Found(c: Config, s: State, run: Schedule, t: Tid, full: bool): nat
    requires CanRun(c, s, run)
    decreases |run|
  {
    if run == [] then 0
    else
      One(run[0] == (t, Release) && (s.tokens == 5) == full)
      + Found(c, Do(c, s, run[0].0, run[0].1), run[1..], t, full)
  }

  lemma StepResult(c: Config, s: State, u: Tid, a: Action, t: Tid, ok: bool)
    requires s.tokens <= 5 && Can(c, s, u, a) && t in s.pc
    ensures One((u, a) == (t, Return) && s.pc[t] == Released(ok)) + One(Do(c, s, u, a).pc[t] == Released(ok))
      == One(s.pc[t] == Released(ok)) + One((u, a) == (t, Release) && (s.tokens == 5) == !ok)
    ensures Do(c, s, u, a).tokens <= 5 && t in Do(c, s, u, a).pc
  {
  }

  lemma {:induction false} RunResult(c: Config, s: State, run: Schedule, t: Tid, ok: bool)
    requires s.tokens <= 5 && CanRun(c, s, run) && t in s.pc
    ensures t in Run(c, s, run).pc
    ensures Came(c, s, run, t, ok) + One(Run(c, s, run).pc[t] == Released(ok))
      == One(s.pc[t] == Released(ok)) + Found(c, s, run, t, !ok)
    decreases |run|
  {
    if run == [] {
    } else {
      var u, a := run[0].0, run[0].1;
      StepResult(c, s, u, a, t, ok);
      hide Do, Can, One;
      RunResult(c, Do(c, s, u, a), run[1..], t, ok);
    }
  }

  /** A release reports success exactly when the semaphore had room for its token. */
  lemma ResultsAreTrue(c: Config, run: Schedule, t: Tid, ok: bool)
    requires CanRun(c, Init(c), run) && t in c.producers
    ensures t in Run(c, Init(c), run).pc
    ensures Came(c, Init(c), run, t, ok) + One(Run(c, Init(c), run).pc[t] == Released(ok))
      == Found(c, Init(c), run, t, !ok)
  {
    RunResult(c, Init(c), run, t, ok);
    assert Init(c).pc[t] == Idle;
    hide Run, CanRun, Came, Found;
  }

  // ----- Every call returns once -----

  predicate Calls(a: Action) {
    a.Start? || a.Acquire?
  }

  predicate Ends(a: Action) {
    a.Return? || a.UnlockGet?
  }

  /** How many steps of `t` in a run begin a call, or end one. */
  function Begun(run: Schedule, t: Tid): nat
    decreases |run|
  {
    if run == [] then 0 else One(run[0].0 == t && Calls(run[0].1)) + Begun(run[1..], t)
  }

  function Ended(run: Schedule, t: Tid): nat
    decreases |run|
  {
    if run == [] then 0 else One(run[0].0 == t && Ends(run[0].1)) + Ended(run[1..], t)
  }

  lemma StepCalls(c: Config, s: State, u: Tid, a: Action, t: Tid)
    requires Can(c, s, u, a) && t in s.pc
    ensures t in Do(c, s, u, a).pc
    ensures One(s.pc[t] != Idle) + One(u == t && Calls(a))
      == One(Do(c, s, u, a).pc[t] != Idle) + One(u == t && Ends(a))
  {
  }

  lemma {:induction false} RunCalls(c: Config, s: State, run: Schedule, t: Tid)
    requires CanRun(c, s, run) && t in s.pc
    ensures t in Run(c, s, run).pc
    ensures One(s.pc[t] != Idle) + Begun(run, t) == One(Run(c, s, run).pc[t] != Idle) + Ended(run, t)
    decreases |run|
  {
    if run == [] {
    } else {
      StepCalls(c, s, run[0].0, run[0].1, t);
      hide Do, Can, One, Calls, Ends;
      RunCalls(c, Do(c, s, run[0].0, run[0].1), run[1..], t);
    }
  }

  /** A thread is in a call exactly between the step that begins it and the one that ends it. */
  lemma EveryCallReturns(c: Config, run: Schedule, t: Tid)
    requires CanRun(c, Init(c), run) && t in Init(c).pc
    ensures t in Run(c, Init(c), run).pc
    ensures Begun(run, t) == Ended(run, t) + One(Run(c, Init(c), run).pc[t] != Idle)
  {
    RunCalls(c, Init(c), run, t);
    assert Init(c).pc[t] == Idle;
    hide Run, CanRun, Begun, Ended;
  }
}
