/**
 What an event group's callers get, said of the schedule alone: the flags are those of an object
 whose sends and receives are atomic, one after another in the order of their updates.
 */
module EventTraffic {
  import opened Threads
  import opened Wrappers
  import opened EventGroup

  // ----- One receive, on bits -----

  /** The test of qosa_event_recv: option bit 1 asks for any flag of the mask, bit 2 for all. */
  predicate Meets(flags: bv32, mask: bv32, option: bv8) {
    (option & 1 != 0 && flags & mask != 0) || (option & 2 != 0 && flags & mask == mask)
  }

  predicate OneBit(b: bv32) {
    b != 0 && b & (b - 1) == 0
  }

  predicate Has(flags: bv32, b: bv32) {
    flags & b != 0
  }

  /** In terms of single flags: one that is asked for is there, or each of them is. */
  lemma MeetsMeaning(flags: bv32, mask: bv32, option: bv8)
    ensures Meets(flags, mask, option) <==>
      || (option & 1 != 0 && exists b :: OneBit(b) && Has(mask, b) && Has(flags, b))
      || (option & 2 != 0 && forall b :: OneBit(b) && Has(mask, b) ==> Has(flags, b))
  {
    AnyMeets(flags, mask);
    AllMeet(flags, mask);
    hide OneBit, Has;
  }

  lemma AnyMeets(flags: bv32, mask: bv32)
    ensures flags & mask != 0 <==> exists b :: OneBit(b) && Has(mask, b) && Has(flags, b)
  {
    AnyBit(flags & mask);
    forall b | OneBit(b)
      ensures Has(flags & mask, b) <==> Has(mask, b) && Has(flags, b)
    {
      HasBoth(flags, mask, b);
    }
    hide OneBit, Has;
    if flags & mask != 0 {
      var b :| OneBit(b) && Has(flags & mask, b);
    }
  }

  lemma AllMeet(flags: bv32, mask: bv32)
    ensures flags & mask == mask <==> forall b :: OneBit(b) && Has(mask, b) ==> Has(flags, b)
  {
    if flags & mask == mask {
      forall b | OneBit(b) && Has(mask, b)
        ensures Has(flags, b)
      {
        HasAll(flags, mask, b);
      }
    } else {
      var missing := mask & !flags;
      if missing == 0 {
        Covers(flags, mask);
      }
      AnyBit(missing);
      var b :| OneBit(b) && Has(missing, b);
      HasNot(flags, mask, b);
    }
  }

  lemma Covers(flags: bv32, mask: bv32)
    requires mask & !flags == 0
    ensures flags & mask == mask
  {
    assert (flags & mask) | (mask & !flags) == mask;
  }

  /** A number is not zero exactly when it has a bit. */
  lemma AnyBit(x: bv32)
    ensures x != 0 <==> exists b :: OneBit(b) && Has(x, b)
  {
    if x != 0 {
      LowestBit(x);
      assert OneBit(x & (0 - x)) && Has(x, x & (0 - x));
    }
  }

  lemma LowestBit(x: bv32)
    requires x != 0
    ensures OneBit(x & (0 - x)) && Has(x, x & (0 - x))
  {
  }

  lemma HasBoth(flags: bv32, mask: bv32, b: bv32)
    requires OneBit(b)
    ensures Has(flags & mask, b) <==> Has(mask, b) && Has(flags, b)
  {
  }

  lemma HasAll(flags: bv32, mask: bv32, b: bv32)
    requires flags & mask == mask && Has(mask, b)
    ensures Has(flags, b)
  {
  }

  lemma HasNot(flags: bv32, mask: bv32, b: bv32)
    requires OneBit(b) && Has(mask & !flags, b)
    ensures Has(mask, b) && !Has(flags, b)
  {
  }

  // ----- The atomic object -----

  /** Mask and option of the latest call of qosa_event_recv by `t`. */
  function Asked(run: Schedule, t: Tid): (bv32, bv8)
    decreases |run|
  {
    if run == [] then (0, 0)
    else
      var u, a := run[|run| - 1].0, run[|run| - 1].1;
      if u == t && a.Receive? then (a.mask, a.option) else Asked(run[..|run| - 1], t)
  }

  /** The flags of the latest call of qosa_event_send by `t`. */
  function Offered(run: Schedule, t: Tid): bv32
    decreases |run|
  {
    if run == [] then 0
    else
      var u, a := run[|run| - 1].0, run[|run| - 1].1;
      if u == t && a.Send? then a.bits else Offered(run[..|run| - 1], t)
  }

  function And(a: bv32, b: bv32): bv32 { a & b }

  function Or(a: bv32, b: bv32): bv32 { a | b }

  /** What an atomic receive leaves of the flags. */
  function Left(flags: bv32, mask: bv32, option: bv8): bv32 {
    if Meets(flags, mask, option) && option & 4 == 0 then flags & !(flags & mask) else flags
  }

  /** The flags after the sends and receives of a run, each at its update. */
  function FlagsAfter(run: Schedule): bv32
    decreases |run|
  {
    if run == [] then 0
    else
      var before, u, a := run[..|run| - 1], run[|run| - 1].0, run[|run| - 1].1;
      var flags := FlagsAfter(before);
      if a.SetFlags? then Or(flags, Offered(before, u))
      else if a.Test? then Left(flags, Asked(before, u).0, Asked(before, u).1)
      else flags
  }

  /** The semaphore's tokens after the releases and wakeups of a run. */
  function TokensAfter(run: Schedule): int
    decreases |run|
  {
    if run == [] then 0
    else
      var tokens, a := TokensAfter(run[..|run| - 1]), run[|run| - 1].1;
      if a.ReleaseSem? then (if tokens < 5 then tokens + 1 else 5)
      else if a.Wake? then tokens - 1
      else tokens
  }

  lemma TokensExtended(run: Schedule, u: Tid, a: Action)
    ensures TokensAfter(run + [(u, a)]) ==
      if a.ReleaseSem? then (if TokensAfter(run) < 5 then TokensAfter(run) + 1 else 5)
      else if a.Wake? then TokensAfter(run) - 1
      else TokensAfter(run)
  {
    assert (run + [(u, a)])[..|run|] == run;
  }

  lemma StepTokens(c: Config, s: State, run: Schedule, t: Tid, a: Action)
    requires Can(c, s, t, a) && s.tokens == TokensAfter(run) <= 5
    ensures Do(c, s, t, a).tokens == TokensAfter(run + [(t, a)]) <= 5
  {
    TokensExtended(run, t, a);
    hide TokensAfter, Satisfied, Masked, Without, Joined, ModeOf;
  }

  /** In every run the semaphore holds what was released, up to five, and not yet taken. */
  lemma {:induction false} TokensFollow(c: Config, run: Schedule)
    requires CanRun(c, Init(c), run)
    ensures Run(c, Init(c), run).tokens == TokensAfter(run) <= 5
    decreases |run|
  {
    if run == [] {
    } else {
      hide Run, CanRun, Init, Do, Can, TokensAfter;
      var before, t, a := run[..|run| - 1], run[|run| - 1].0, run[|run| - 1].1;
      LastStep(c, Init(c), run);
      TokensFollow(c, before);
      StepTokens(c, Run(c, Init(c), before), before, t, a);
      assert before + [(t, a)] == run;
    }
  }

  /** Whether the latest test of `t` was met, and which of the flags it asked for were set then. */
  function Answer(run: Schedule, t: Tid): (bool, bv32)
    decreases |run|
  {
    if run == [] then (false, 0)
    else
      var before, u, a := run[..|run| - 1], run[|run| - 1].0, run[|run| - 1].1;
      if u == t && a.Test? then
        var flags, asked := FlagsAfter(before), Asked(before, t);
        (Meets(flags, asked.0, asked.1), And(flags, asked.0))
      else Answer(before, t)
  }

  lemma {:induction false} LastStep(c: Config, s: State, run: Schedule)
    requires CanRun(c, s, run) && run != []
    ensures var before, t, a := run[..|run| - 1], run[|run| - 1].0, run[|run| - 1].1;
      && CanRun(c, s, before) && Can(c, Run(c, s, before), t, a)
      && Run(c, s, run) == Do(c, Run(c, s, before), t, a)
    decreases |run|
  {
    hide Can, Do;
    var s1 := Do(c, s, run[0].0, run[0].1);
    if |run| == 1 {
      assert run[..0] == [] && run[1..] == [];
    } else {
      var rest := run[1..];
      assert run[..|run| - 1][1..] == rest[..|rest| - 1];
      LastStep(c, s1, rest);
    }
  }

  /** A thread on its way does what its call asked for, and returns what its test found. */
  ghost predicate AsAsked(p: Pc, asked: (bv32, bv8), offered: bv32, answer: (bool, bv32)) {
    && (Receiving(p) && !p.Returning? ==> p.mask == asked.0 && p.mode == ModeOf(asked.1))
    && (p.Sending? || p.Setting? ==> p.bits == offered)
    && (p.Returning? ==> answer == (true, p.got))
    && (p.GivingUp? ==> !answer.0)
  }

  ghost predicate AllAsAsked(s: State, run: Schedule) {
    forall t :: t in s.pc ==> AsAsked(s.pc[t], Asked(run, t), Offered(run, t), Answer(run, t))
  }

  /** What one more step adds to the schedule. */
  lemma Extended(run: Schedule, u: Tid, a: Action, t: Tid)
    ensures Asked(run + [(u, a)], t) == if u == t && a.Receive? then (a.mask, a.option) else Asked(run, t)
    ensures Offered(run + [(u, a)], t) == if u == t && a.Send? then a.bits else Offered(run, t)
  {
    assert (run + [(u, a)])[..|run|] == run;
  }

  lemma AnswerExtended(run: Schedule, u: Tid, a: Action, t: Tid)
    ensures Answer(run + [(u, a)], t) == if u == t && a.Test?
      then (Meets(FlagsAfter(run), Asked(run, t).0, Asked(run, t).1), And(FlagsAfter(run), Asked(run, t).0))
      else Answer(run, t)
  {
    hide Meets, And, FlagsAfter, Asked;
    assert (run + [(u, a)])[..|run|] == run;
  }

  lemma FlagsExtended(run: Schedule, u: Tid, a: Action)
    ensures FlagsAfter(run + [(u, a)]) == if a.SetFlags? then Or(FlagsAfter(run), Offered(run, u))
      else if a.Test? then Left(FlagsAfter(run), Asked(run, u).0, Asked(run, u).1)
      else FlagsAfter(run)
  {
    hide Left, Or, Offered, Asked;
    assert (run + [(u, a)])[..|run|] == run;
  }

  /** The code's test is the one on the option's bits. */
  lemma TestIsMeets(flags: bv32, mask: bv32, option: bv8)
    ensures Satisfied(flags, mask, ModeOf(option)) == Meets(flags, mask, option)
    ensures Meets(flags, mask, option) ==>
      Left(flags, mask, option) == if ModeOf(option).keep then flags else Without(flags, Masked(flags, mask))
    ensures !Meets(flags, mask, option) ==> Left(flags, mask, option) == flags
    ensures Masked(flags, mask) == And(flags, mask)
  {
  }

  lemma JoinedIs(flags: bv32, bits: bv32)
    ensures Joined(flags, bits) == Or(flags, bits)
  {
  }

  lemma StepFlags(c: Config, s: State, run: Schedule, t: Tid, a: Action)
    requires Can(c, s, t, a) && AllAsAsked(s, run) && s.flags == FlagsAfter(run)
    ensures Do(c, s, t, a).flags == FlagsAfter(run + [(t, a)])
  {
    assert AsAsked(s.pc[t], Asked(run, t), Offered(run, t), Answer(run, t));
    TestIsMeets(s.flags, Asked(run, t).0, Asked(run, t).1);
    JoinedIs(s.flags, Offered(run, t));
    FlagsExtended(run, t, a);
    hide And, Or, Meets, Left, FlagsAfter, Asked, Offered, Answer, Satisfied, Masked, Without, Joined, ModeOf, AllAsAsked;
  }

  lemma StepAsAsked(c: Config, s: State, run: Schedule, t: Tid, a: Action)
    requires Can(c, s, t, a) && AllAsAsked(s, run) && s.flags == FlagsAfter(run)
    ensures AllAsAsked(Do(c, s, t, a), run + [(t, a)])
  {
    TestIsMeets(s.flags, Asked(run, t).0, Asked(run, t).1);
    hide And, Or, Meets, Left, FlagsAfter, Asked, Offered, Answer, Satisfied, Masked, Without, Joined, ModeOf;
    var s', all := Do(c, s, t, a), run + [(t, a)];
    forall u | u in s'.pc
      ensures AsAsked(s'.pc[u], Asked(all, u), Offered(all, u), Answer(all, u))
    {
      assert AsAsked(s.pc[u], Asked(run, u), Offered(run, u), Answer(run, u));
      Extended(run, t, a, u);
      AnswerExtended(run, t, a, u);
    }
  }

  /** In every run the flags are those of the atomic object, and every caller gets its answer. */
  lemma {:induction false} FollowsSchedule(c: Config, run: Schedule)
    requires CanRun(c, Init(c), run)
    ensures var s := Run(c, Init(c), run); s.flags == FlagsAfter(run) && AllAsAsked(s, run)
    decreases |run|
  {
    if run == [] {
      Nothing(c);
    } else {
      hide Run, CanRun, Init, Do, Can, FlagsAfter, AllAsAsked;
      var before, t, a := run[..|run| - 1], run[|run| - 1].0, run[|run| - 1].1;
      LastStep(c, Init(c), run);
      FollowsSchedule(c, before);
      var s := Run(c, Init(c), before);
      assert run == before + [(t, a)];
      StepFlags(c, s, before, t, a);
      StepAsAsked(c, s, before, t, a);
    }
  }

  lemma Nothing(c: Config)
    ensures CanRun(c, Init(c), []) && Run(c, Init(c), []) == Init(c)
    ensures Init(c).flags == FlagsAfter([]) && AllAsAsked(Init(c), [])
  {
  }

  /**
   A receive that is about to return was met at its test, by the flags the sends and receives
   before it had left, and returns those of them it asked for. One that is about to wait was not.
   */
  lemma ReturnsWhatWasAsked(c: Config, run: Schedule, t: Tid)
    requires CanRun(c, Init(c), run) && t in Run(c, Init(c), run).pc
    ensures Can(c, Run(c, Init(c), run), t, UnlockReturn) ==>
      Answer(run, t) == (true, Run(c, Init(c), run).pc[t].got)
    ensures Can(c, Run(c, Init(c), run), t, UnlockBlock) ==> !Answer(run, t).0
  {
    FollowsSchedule(c, run);
    var s := Run(c, Init(c), run);
    hide Run, CanRun, Init;
    assert AsAsked(s.pc[t], Asked(run, t), Offered(run, t), Answer(run, t));
  }

  function One(b: bool): nat {
    if b then 1 else 0
  }

  // ----- Every call returns once -----

  predicate Calls(a: Action) {
    a.Receive? || a.Send?
  }

  predicate Ends(a: Action) {
    a.UnlockReturn? || a.TimeOut? || a.UnlockSend?
  }

  /** How many steps of `t` in a run begin a call, or end one. */
  function Begun(run: Schedule, t: Tid): nat
    decreases |run|
  {
    if run == [] then 0 else One(run[0].0 == t && Calls(run[0].1)) + Begun(run[1..], t)
  }

  function Ended(run: Schedule, t: Tid): nat
    decreases |run|
  {
    if run == [] then 0 else One(run[0].0 == t && Ends(run[0].1)) + Ended(run[1..], t)
  }

  lemma StepCalls(c: Config, s: State, u: Tid, a: Action, t: Tid)
    requires Can(c, s, u, a) && t in s.pc
    ensures t in Do(c, s, u, a).pc
    ensures One(s.pc[t] != Idle) + One(u == t && Calls(a))
      == One(Do(c, s, u, a).pc[t] != Idle) + One(u == t && Ends(a))
  {
    hide Masked, Without, Joined, Satisfied, ModeOf;
    var p := Do(c, s, u, a).pc[u];
    assert Do(c, s, u, a).pc == s.pc[u := p];
    assert One(s.pc[u] != Idle) + One(Calls(a)) == One(p != Idle) + One(Ends(a));
    hide Do, Can;
  }

  lemma {:induction false} RunCalls(c: Config, s: State, run: Schedule, t: Tid)
    requires CanRun(c, s, run) && t in s.pc
    ensures t in Run(c, s, run).pc
    ensures One(s.pc[t] != Idle) + Begun(run, t) == One(Run(c, s, run).pc[t] != Idle) + Ended(run, t)
    decreases |run|
  {
    if run == [] {
    } else {
      StepCalls(c, s, run[0].0, run[0].1, t);
      hide Do, Can, One, Calls, Ends;
      RunCalls(c, Do(c, s, run[0].0, run[0].1), run[1..], t);
    }
  }

  /** A thread is in a call exactly between the step that begins it and the one that ends it. */
  lemma EveryCallReturns(c: Config, run: Schedule, t: Tid)
    requires CanRun(c, Init(c), run) && t in Init(c).pc
    ensures t in Run(c, Init(c), run).pc
    ensures Begun(run, t) == Ended(run, t) + One(Run(c, Init(c), run).pc[t] != Idle)
  {
    RunCalls(c, Init(c), run, t);
    assert Init(c).pc[t] == Idle;
    hide Run, CanRun, Begun, Ended;
  }
}
