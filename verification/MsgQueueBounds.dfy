/**
 How far `qosa_msgq_release` can overshoot: the exact conditions under which the queue respects
 its maximum and under which no release is refused by the kernel semaphore.
 */
module MsgQueueBounds {
  import opened Bytes
  import opened Threads
  import opened Wrappers
  import opened MsgQueue

  /** The most items a queue can ever hold. */
  function Peak(c: Config): int {
    c.max + |c.producers| - 1
  }

  // ----- No release fails while the peak fits the semaphore -----

  lemma ItemsBound(c: Config, s: State)
    requires Inv(c, s)
    ensures |s.items| <= Peak(c)
  {
    SubsetSize(Those(s.pc, AtPutDone), Those(s.pc, Past));
  }

  lemma NextReleaseWorks(c: Config, s: State, t: Tid, a: Action)
    requires Peak(c) <= MAX_TOKENS || c.producers == {}
    requires Inv(c, s) && Can(c, s, t, a)
    ensures Do(c, s, t, a).failed == s.failed
  {
    if a.Release? {
      ItemsBound(c, s);
      OneIsThere(s.pc, t, Owing);
    }
    hide Inv;
  }

  lemma {:induction false} NoReleaseFails(c: Config, s: State, run: Schedule)
    requires Sane(c) && (Peak(c) <= MAX_TOKENS || c.producers == {})
    requires Inv(c, s) && s.failed == 0 && CanRun(c, s, run)
    ensures Run(c, s, run).failed == 0
    decreases |run|
  {
    if run == [] {
    } else {
      var t, a := run[0].0, run[0].1;
      NextReleaseWorks(c, s, t, a);
      StepInv(c, s, t, a);
      hide Inv, Do, Can;
      NoReleaseFails(c, Do(c, s, t, a), run[1..]);
    }
  }

  // ----- A run that reaches the peak -----

  lemma {:induction false} RunOn(c: Config, s: State, a: Schedule, b: Schedule)
    requires CanRun(c, s, a) && CanRun(c, Run(c, s, a), b)
    ensures CanRun(c, s, a + b) && Run(c, s, a + b) == Run(c, Run(c, s, a), b)
    decreases |a|
  {
    hide Can, Do;
    if a == [] {
      assert a + b == b;
    } else {
      assert (a + b)[0] == a[0] && (a + b)[1..] == a[1..] + b;
      RunOn(c, Do(c, s, a[0].0, a[0].1), a[1..], b);
    }
  }

  /** `k` messages are queued, the threads in `checked` are past the test, the others idle. */
  ghost predicate At(c: Config, s: State, k: nat, checked: set<Tid>) {
    && s.pc.Keys == c.producers + c.consumers
    && (forall t :: t in s.pc ==> s.pc[t] == if t in checked then Checked([]) else Idle)
    && s.mutex == None && s.currentCnt == k
    && s.tokens == Min(k, MAX_TOKENS) && s.failed == k - s.tokens
  }

  lemma StartOne(c: Config, s: State, k: nat, checked: set<Tid>, t: Tid)
    returns (run: Schedule)
    requires At(c, s, k, checked) && t in c.producers - checked && k < c.max
    ensures CanRun(c, s, run) && At(c, Run(c, s, run), k, checked + {t})
  {
    run := [(t, Start([]))];
    var s1 := Do(c, s, t, Start([]));
    assert run[1..] == [] && Run(c, s, run) == s1;
  }

  /** One producer past the test puts its message and goes idle. */
  lemma FinishOne(c: Config, s: State, k: nat, checked: set<Tid>, t: Tid)
    returns (run: Schedule)
    requires At(c, s, k, checked) && t in checked && t in s.pc && k + 1 < U32
    ensures CanRun(c, s, run) && At(c, Run(c, s, run), k + 1, checked - {t})
  {
    var put := PutOne(c, s, k, checked, t);
    var s1 := Run(c, s, put);
    var release := ReleaseOne(c, s1, k, checked, t);
    RunOn(c, s, put, release);
    run := put + release;
  }

  /** Like `At`, with `t` about to give the mutex back. */
  ghost predicate Counted(c: Config, s: State, k: nat, checked: set<Tid>, t: Tid) {
    && t in s.pc && s.pc[t] == PutCounted && s.mutex == Some(t)
    && s.pc.Keys == c.producers + c.consumers
    && (forall u :: u in s.pc && u != t ==> s.pc[u] == if u in checked then Checked([]) else Idle)
    && s.currentCnt == k + 1
    && s.tokens == Min(k, MAX_TOKENS) && s.failed == k - s.tokens
  }

  lemma PutOne(c: Config, s: State, k: nat, checked: set<Tid>, t: Tid)
    returns (run: Schedule)
    requires At(c, s, k, checked) && t in checked && t in s.pc && k + 1 < U32
    ensures CanRun(c, s, run) && Counted(c, Run(c, s, run), k, checked, t)
  {
    var s1 := Do(c, s, t, LockPut);
    var s2 := Do(c, s1, t, Put);
    var s3 := Do(c, s2, t, CountPut);
    assert Counted(c, s3, k, checked, t);
    EmptyRun(c, s3);
    hide Run, CanRun, Counted, Do, Can;
    run := OneStep(c, s2, t, CountPut, []);
    run := OneStep(c, s1, t, Put, run);
    run := OneStep(c, s, t, LockPut, run);
  }

  lemma ReleaseOne(c: Config, s: State, k: nat, checked: set<Tid>, t: Tid)
    returns (run: Schedule)
    requires Counted(c, s, k, checked, t)
    ensures CanRun(c, s, run) && At(c, Run(c, s, run), k + 1, checked - {t})
  {
    var s1 := Do(c, s, t, UnlockPut);
    var s2 := Do(c, s1, t, Release);
    var s3 := Do(c, s2, t, Return);
    assert At(c, s3, k + 1, checked - {t});
    EmptyRun(c, s3);
    hide Run, CanRun, At, Do, Can;
    run := OneStep(c, s2, t, Return, []);
    run := OneStep(c, s1, t, Release, run);
    run := OneStep(c, s, t, UnlockPut, run);
  }

  lemma EmptyRun(c: Config, s: State)
    ensures CanRun(c, s, []) && Run(c, s, []) == s
  {
  }

  lemma OneStep(c: Config, s: State, t: Tid, a: Action, rest: Schedule) returns (run: Schedule)
    requires Can(c, s, t, a) && CanRun(c, Do(c, s, t, a), rest)
    ensures CanRun(c, s, run) && Run(c, s, run) == Run(c, Do(c, s, t, a), rest)
  {
    hide Can, Do;
    run := [(t, a)] + rest;
    assert run[1..] == rest;
  }

  /** From rest, producer `t` alone sends `n` messages the queue has room for. */
  lemma {:induction false} SendMany(c: Config, s: State, k: nat, t: Tid, n: nat)
    returns (run: Schedule)
    requires Sane(c) && At(c, s, k, {}) && t in c.producers && k + n < c.max
    ensures CanRun(c, s, run) && At(c, Run(c, s, run), k + n, {})
    decreases n
  {
    if n == 0 {
      run := [];
      EmptyRun(c, s);
    } else {
      var start := StartOne(c, s, k, {}, t);
      var s1 := Run(c, s, start);
      var finish := FinishOne(c, s1, k, {} + {t}, t);
      var s2 := Run(c, s1, finish);
      assert {} + {t} - {t} == {};
      var rest := SendMany(c, s2, k + 1, t, n - 1);
      RunOn(c, s1, finish, rest);
      RunOn(c, s, start, finish + rest);
      run := start + (finish + rest);
    }
  }

  /** While there is room, any number of producers can pass the unlocked test one after another. */
  lemma {:induction false} StartAll(c: Config, s: State, k: nat, checked: set<Tid>, more: set<Tid>)
    returns (run: Schedule)
    requires At(c, s, k, checked) && more <= c.producers - checked && k < c.max
    ensures CanRun(c, s, run) && At(c, Run(c, s, run), k, checked + more)
    decreases |more|
  {
    hide Run, CanRun, Can, Do, At;
    if more == {} {
      run := [];
      EmptyRun(c, s);
      assert checked + more == checked;
    } else {
      var t :| t in more;
      var start := StartOne(c, s, k, checked, t);
      var s1 := Run(c, s, start);
      var rest := StartAll(c, s1, k, checked + {t}, more - {t});
      assert checked + {t} + (more - {t}) == checked + more;
      RunOn(c, s, start, rest);
      run := start + rest;
    }
  }

  /** All of them then put their message, full or not. */
  lemma {:induction false} FinishAll(c: Config, s: State, k: nat, checked: set<Tid>)
    returns (run: Schedule)
    requires At(c, s, k, checked) && checked <= c.producers && k + |checked| < U32
    ensures CanRun(c, s, run) && At(c, Run(c, s, run), k + |checked|, {})
    decreases |checked|
  {
    if checked == {} {
      run := [];
      EmptyRun(c, s);
    } else {
      var t :| t in checked;
      var finish := FinishOne(c, s, k, checked, t);
      var s1 := Run(c, s, finish);
      var rest := FinishAll(c, s1, k + 1, checked - {t});
      RunOn(c, s, finish, rest);
      run := finish + rest;
    }
  }

  /** The peak is reached: one producer fills the queue to one below, then all put at once. */
  lemma PeakIsReached(c: Config) returns (run: Schedule)
    requires Sane(c) && c.producers != {}
    ensures CanRun(c, Init(c), run)
    ensures At(c, Run(c, Init(c), run), Peak(c), {})
  {
    var t :| t in c.producers;
    assert |c.producers| >= 1;
    var fill := SendMany(c, Init(c), 0, t, c.max - 1);
    var s1 := Run(c, Init(c), fill);
    var start := StartAll(c, s1, c.max - 1, {}, c.producers);
    assert {} + c.producers == c.producers;
    var s2 := Run(c, s1, start);
    var finish := FinishAll(c, s2, c.max - 1, c.producers);
    RunOn(c, s1, start, finish);
    RunOn(c, Init(c), fill, start + finish);
    run := fill + (start + finish);
  }

  // ----- The exact conditions -----

  /** The count stays within the maximum in every run exactly when there is at most one producer. */
  lemma MaximumKeptIff(c: Config)
    requires Sane(c)
    ensures (forall run :: CanRun(c, Init(c), run) ==> Run(c, Init(c), run).currentCnt <= c.max)
        <==> |c.producers| <= 1
  {
    if |c.producers| <= 1 {
      forall run | CanRun(c, Init(c), run)
        ensures Run(c, Init(c), run).currentCnt <= c.max
      {
        Safety(c, run);
      }
    } else {
      var run := PeakIsReached(c);
      assert Run(c, Init(c), run).currentCnt == Peak(c) > c.max;
    }
  }

  /** No release is refused, in any run, exactly when the peak fits the five kernel tokens. */
  lemma NoReleaseFailsIff(c: Config)
    requires Sane(c)
    ensures (forall run :: CanRun(c, Init(c), run) ==> Run(c, Init(c), run).failed == 0)
        <==> c.max + |c.producers| - 1 <= 5 || c.producers == {}
  {
    if Peak(c) <= MAX_TOKENS || c.producers == {} {
      InitInv(c);
      forall run | CanRun(c, Init(c), run)
        ensures Run(c, Init(c), run).failed == 0
      {
        NoReleaseFails(c, Init(c), run);
      }
    } else {
      var run := PeakIsReached(c);
      assert Run(c, Init(c), run).failed == Peak(c) - MAX_TOKENS;
    }
  }
}
