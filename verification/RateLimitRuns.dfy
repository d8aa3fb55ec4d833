/**
 The limiter over whole runs: exactly when every call finds the events of its window in the queue,
 that its verdicts are then those of the full history, and the bound they keep.
 */
module RateLimitRuns {
  import opened RateLimit
  import opened RateLimitHistory

  // ---------------------------------------------------------------- finding the events of the window

  /** The next call on the key, at `now`, would find in the queue exactly the events of its window. */
  predicate FindsItsWindow(config: Config, ops: seq<Op>, key: Key, now: Time) {
    Prune(QueueOf(Run(config, ops).0, key), now - config.window) ==
    InWindow(Registered(CallsFor(config, ops, key)), now - config.window)
  }

  ghost predicate AlwaysFindsItsWindow(config: Config, ops: seq<Op>, key: Key) {
    forall i :: 0 <= i < |ops| && IsCallFor(ops[i], key) ==> FindsItsWindow(config, ops[..i], key, ops[i].now)
  }

  /** At each call on the key, the times registered for it since the last reset are in order. */
  ghost predicate Timely(config: Config, ops: seq<Op>, key: Key) {
    forall i :: 0 <= i < |ops| && IsCallFor(ops[i], key) ==>
      InOrder(config.window, CallsFor(config, ops[..i], key), ops[i].now)
  }

  lemma FindsAsItsCalls(config: Config, ops: seq<Op>, key: Key, now: Time)
    ensures FindsItsWindow(config, ops, key, now) <==> CountsRight(config.window, CallsFor(config, ops, key), now)
  {
    QueueIsOfCalls(config, ops, key);
  }

  lemma TimelyNext(config: Config, ops: seq<Op>, key: Key)
    requires ops != []
    ensures var first, last := ops[..|ops| - 1], ops[|ops| - 1];
            Timely(config, ops, key) <==>
            Timely(config, first, key) && (IsCallFor(last, key) ==> InOrder(config.window, CallsFor(config, first, key), last.now))
  {
    var first := ops[..|ops| - 1];
    assert forall i :: 0 <= i < |first| ==> first[..i] == ops[..i];
    hide InOrder, CallsFor;
  }

  lemma FindsNext(config: Config, ops: seq<Op>, key: Key)
    requires ops != []
    ensures var first, last := ops[..|ops| - 1], ops[|ops| - 1];
            AlwaysFindsItsWindow(config, ops, key) <==>
            AlwaysFindsItsWindow(config, first, key) && (IsCallFor(last, key) ==> FindsItsWindow(config, first, key, last.now))
  {
    var first := ops[..|ops| - 1];
    assert forall i :: 0 <= i < |first| ==> first[..i] == ops[..i];
    hide FindsItsWindow;
  }

  lemma CallsNext(config: Config, ops: seq<Op>, key: Key)
    requires ops != []
    ensures var first, last := ops[..|ops| - 1], ops[|ops| - 1];
            CallsFor(config, ops, key) ==
            if last.Reset? then []
            else if last.key == key then CallsFor(config, first, key) + [Call(last.now, Registers(last, Run(config, ops).1[|ops| - 1]))]
            else CallsFor(config, first, key)
  {
    hide Run, Registers;
  }

  lemma RightNext(window: Time, calls: seq<Call>, call: Call)
    requires AlwaysRight(window, calls) && CountsRight(window, calls, call.now)
    ensures AlwaysRight(window, calls + [call])
  {
    var all := calls + [call];
    assert all[..|calls|] == calls;
    assert forall k :: 0 <= k < |calls| ==> all[..k] == calls[..k];
    hide CountsRight;
  }

  lemma {:induction false} FindsWindowsExactly(config: Config, ops: seq<Op>, key: Key)
    ensures AlwaysFindsItsWindow(config, ops, key) <==> Timely(config, ops, key)
    ensures Timely(config, ops, key) ==> AlwaysRight(config.window, CallsFor(config, ops, key))
  {
    if ops != [] {
      var first, last := ops[..|ops| - 1], ops[|ops| - 1];
      var before := CallsFor(config, first, key);
      FindsWindowsExactly(config, first, key);
      TimelyNext(config, ops, key);
      FindsNext(config, ops, key);
      CallsNext(config, ops, key);
      hide Timely, AlwaysFindsItsWindow, CallsFor, InOrder, FindsItsWindow;
      if IsCallFor(last, key) && Timely(config, first, key) {
        NextCountsRightExactly(config.window, before, last.now);
        FindsAsItsCalls(config, first, key, last.now);
        if CountsRight(config.window, before, last.now) {
          RightNext(config.window, before, Call(last.now, Registers(last, Run(config, ops).1[|ops| - 1])));
        }
      }
    }
  }

  /** After a run whose calls found their windows, the next call finds its own exactly when the times
      are in order: whoever makes it can tell beforehand. */
  lemma NextCallFindsItsWindowExactly(config: Config, ops: seq<Op>, key: Key, now: Time)
    requires AlwaysFindsItsWindow(config, ops, key)
    ensures FindsItsWindow(config, ops, key, now) <==> InOrder(config.window, CallsFor(config, ops, key), now)
  {
    FindsWindowsExactly(config, ops, key);
    NextCountsRightExactly(config.window, CallsFor(config, ops, key), now);
    FindsAsItsCalls(config, ops, key, now);
  }

  // ---------------------------------------------------------------- the verdicts are the history's

  lemma VerdictOfQueue(config: Config, queue: seq<Time>, times: seq<Time>, op: Op)
    requires !op.Reset? && Prune(queue, op.now - config.window) == InWindow(times, op.now - config.window)
    ensures QueueStep(config, queue, op).1 == HistoryStep(config, times, op).1
    ensures HistoryStep(config, times, op).0 == times + if Registers(op, QueueStep(config, queue, op).1) then [op.now] else []
  {
    hide Prune, InWindow;
  }

  lemma OneCallRefines(config: Config, queues: Queues, history: seq<Event>, op: Op)
    requires !op.Reset?
    requires Prune(QueueOf(queues, op.key), op.now - config.window) == InWindow(TimesOf(history, op.key), op.now - config.window)
    ensures Step(config, queues, op).1 == Reference(config, history, op).1
    ensures TimesOf(Reference(config, history, op).0, op.key) ==
            TimesOf(history, op.key) + if Registers(op, Step(config, queues, op).1) then [op.now] else []
  {
    hide Step, Reference, TimesOf, QueueStep, HistoryStep, Prune, InWindow, Registers;
    StepIsPerKey(config, queues, op, op.key);
    ReferenceIsPerKey(config, history, op, op.key);
    VerdictOfQueue(config, QueueOf(queues, op.key), TimesOf(history, op.key), op);
  }

  lemma RegisteredNext(calls: seq<Call>, call: Call)
    ensures Registered(calls + [call]) == Registered(calls) + if call.registered then [call.now] else []
  {
    assert (calls + [call])[..|calls|] == calls;
  }

  lemma OneCallRegisters(config: Config, ops: seq<Op>, last: Op)
    requires !last.Reset? && Timely(config, ops, last.key)
    requires InOrder(config.window, CallsFor(config, ops, last.key), last.now)
    requires TimesOf(RunReference(config, ops).0, last.key) == Registered(CallsFor(config, ops, last.key))
    ensures var limited := Step(config, Run(config, ops).0, last).1;
            TimesOf(Reference(config, RunReference(config, ops).0, last).0, last.key) ==
            Registered(CallsFor(config, ops, last.key) + [Call(last.now, Registers(last, limited))])
  {
    hide Step, Reference, Timely, TimesOf, CallsFor, InOrder, Prune, InWindow, Run, RunReference, Registers, Registered;
    NextCallInOrder(config, ops, last.key, last.now);
    OneCallRefines(config, Run(config, ops).0, RunReference(config, ops).0, last);
    RegisteredNext(CallsFor(config, ops, last.key), Call(last.now, Registers(last, Step(config, Run(config, ops).0, last).1)));
  }

  lemma ResetForgets(config: Config, history: seq<Event>, op: Op, key: Key)
    requires op.Reset?
    ensures TimesOf(Reference(config, history, op).0, key) == [] == Registered([])
  {
  }

  /** As long as the times are in order, the limiter registers what the one that forgets nothing does. */
  lemma {:induction false} RegistersTheSame(config: Config, ops: seq<Op>, key: Key)
    requires Timely(config, ops, key)
    ensures TimesOf(RunReference(config, ops).0, key) == Registered(CallsFor(config, ops, key))
  {
    if ops != [] {
      var first, last := ops[..|ops| - 1], ops[|ops| - 1];
      assert ops == first + [last];
      RunNext(config, first, last);
      RunReferenceNext(config, first, last);
      TimelyNext(config, ops, key);
      CallsNext(config, ops, key);
      hide Step, Reference, Timely, TimesOf, CallsFor, InOrder, Run, RunReference, Registers, Registered;
      RegistersTheSame(config, first, key);
      if last.Reset? {
        ResetForgets(config, RunReference(config, first).0, last, key);
      } else if last.key == key {
        OneCallRegisters(config, first, last);
      } else {
        ReferenceIsPerKey(config, RunReference(config, first).0, last, key);
      }
    } else {
      hide Timely;
    }
  }

  lemma NextCallInOrder(config: Config, ops: seq<Op>, key: Key, now: Time)
    requires Timely(config, ops, key) && InOrder(config.window, CallsFor(config, ops, key), now)
    ensures FindsItsWindow(config, ops, key, now)
  {
    FindsWindowsExactly(config, ops, key);
    NextCallFindsItsWindowExactly(config, ops, key, now);
  }

  /** One more call whose time is in order is judged as the full history judges it. */
  lemma StepRefines(config: Config, ops: seq<Op>, next: Op)
    requires !next.Reset? && Timely(config, ops, next.key)
    requires InOrder(config.window, CallsFor(config, ops, next.key), next.now)
    ensures Step(config, Run(config, ops).0, next).1 == Reference(config, RunReference(config, ops).0, next).1
  {
    hide Step, Reference, Timely, InOrder, TimesOf, CallsFor, Run, RunReference, Registered;
    NextCallInOrder(config, ops, next.key, next.now);
    RegistersTheSame(config, ops, next.key);
    OneCallRefines(config, Run(config, ops).0, RunReference(config, ops).0, next);
  }

  /** Every verdict of a run on a key whose times are in order is the full history's, over any mix of
      calls on any keys. */
  lemma {:induction false} VerdictsRefine(config: Config, ops: seq<Op>, key: Key, i: nat)
    requires Timely(config, ops, key) && i < |ops| && IsCallFor(ops[i], key)
    ensures Run(config, ops).1[i] == RunReference(config, ops).1[i]
    decreases |ops|
  {
    hide Step, Reference, Timely, InOrder, CallsFor;
    var first, last := ops[..|ops| - 1], ops[|ops| - 1];
    TimelyNext(config, ops, key);
    if i < |first| {
      VerdictsRefine(config, first, key, i);
    } else {
      StepRefines(config, first, last);
    }
  }

  lemma {:induction false} ResetsRefine(config: Config, ops: seq<Op>, i: nat)
    requires i < |ops| && ops[i].Reset?
    ensures Run(config, ops).1[i] == RunReference(config, ops).1[i]
    decreases |ops|
  {
    if i < |ops| - 1 {
      hide Step, Reference;
      ResetsRefine(config, ops[..|ops| - 1], i);
    }
  }

  /** The limiter refines the one that forgets nothing: with every key's times in order, every
      verdict of a run is the full history's. */
  lemma RunRefines(config: Config, ops: seq<Op>)
    requires forall key :: Timely(config, ops, key)
    ensures Run(config, ops).1 == RunReference(config, ops).1
  {
    hide Run, RunReference, Timely;
    forall i: nat | i < |ops| ensures Run(config, ops).1[i] == RunReference(config, ops).1[i] {
      if ops[i].Reset? {
        ResetsRefine(config, ops, i);
      } else {
        VerdictsRefine(config, ops, ops[i].key, i);
      }
    }
  }

  // ---------------------------------------------------------------- clocks that do not run backwards

  /** The calls on a key have times that do not run backwards; those on other keys may interleave in
      any order. */
  ghost predicate ClockForward(ops: seq<Op>, key: Key) {
    forall i, j :: 0 <= i < j < |ops| && IsCallFor(ops[i], key) && IsCallFor(ops[j], key) ==> ops[i].now <= ops[j].now
  }

  ghost predicate SortedUpTo(calls: seq<Call>, clock: Time) {
    && (forall i, j :: 0 <= i < j < |calls| ==> calls[i].now <= calls[j].now)
    && forall i :: 0 <= i < |calls| ==> calls[i].now <= clock
  }

  lemma {:induction false} CallsAreSorted(config: Config, ops: seq<Op>, key: Key, clock: Time)
    requires ClockForward(ops, key) && forall i :: 0 <= i < |ops| && IsCallFor(ops[i], key) ==> ops[i].now <= clock
    ensures SortedUpTo(CallsFor(config, ops, key), clock)
  {
    if ops != [] {
      var first, last := ops[..|ops| - 1], ops[|ops| - 1];
      CallsNext(config, ops, key);
      hide CallsFor, Run;
      CallsAreSorted(config, first, key, if IsCallFor(last, key) then last.now else clock);
    }
  }

  lemma SortedIsInOrder(window: Time, calls: seq<Call>, now: Time)
    requires SortedUpTo(calls, now)
    ensures InOrder(window, calls, now)
  {
  }

  /** A key whose clock does not run backwards has its times in order. */
  lemma ForwardIsTimely(config: Config, ops: seq<Op>, key: Key)
    requires ClockForward(ops, key)
    ensures Timely(config, ops, key)
  {
    hide InOrder, CallsFor;
    forall i | 0 <= i < |ops| && IsCallFor(ops[i], key)
      ensures InOrder(config.window, CallsFor(config, ops[..i], key), ops[i].now)
    {
      CallsAreSorted(config, ops[..i], key, ops[i].now);
      SortedIsInOrder(config.window, CallsFor(config, ops[..i], key), ops[i].now);
    }
  }

  // ---------------------------------------------------------------- the sliding bound

  /** The last call of the run was a hit on the key within [from, to] that was let through. */
  predicate AcceptedLast(config: Config, ops: seq<Op>, key: Key, from: Time, to: Time)
    requires ops != []
  {
    var last := ops[|ops| - 1];
    last.Hit? && last.key == key && from <= last.now <= to && !Run(config, ops).1[|ops| - 1]
  }

  /** How many calls of the run since the last reset were hits on the key within [from, to] that
      were let through. */
  function Accepted(config: Config, ops: seq<Op>, key: Key, from: Time, to: Time): nat {
    if ops == [] || ops[|ops| - 1].Reset? then 0
    else
      Accepted(config, ops[..|ops| - 1], key, from, to) + if AcceptedLast(config, ops, key, from, to) then 1 else 0
  }

  lemma {:induction false} WindowShrinks(times: seq<Time>, early: Time, late: Time)
    requires early <= late
    ensures |InWindow(times, late)| <= |InWindow(times, early)|
  {
    if times != [] {
      WindowShrinks(times[..|times| - 1], early, late);
    }
  }

  /** Every accepted hit was registered. */
  lemma {:induction false} AcceptedAreRegistered(config: Config, ops: seq<Op>, key: Key, from: Time, to: Time)
    ensures Accepted(config, ops, key, from, to) <= |InWindow(Registered(CallsFor(config, ops, key)), from)|
  {
    if ops != [] && !ops[|ops| - 1].Reset? {
      var first, last := ops[..|ops| - 1], ops[|ops| - 1];
      AcceptedAreRegistered(config, first, key, from, to);
      CallsNext(config, ops, key);
      var before := CallsFor(config, first, key);
      hide Run, CallsFor;
      if last.key == key {
        RegisteredNext(before, Call(last.now, Registers(last, Run(config, ops).1[|ops| - 1])));
        assert (Registered(before) + [last.now])[..|Registered(before)|] == Registered(before);
        assert Registered(before) + [] == Registered(before);
      }
    }
  }

  /** No hit on the key comes when a call before it moved the window past an event of its own window. */
  ghost predicate HitsMissNothing(config: Config, ops: seq<Op>, key: Key) {
    forall i :: 0 <= i < |ops| && ops[i].Hit? && ops[i].key == key ==>
      NonePassed(config.window, CallsFor(config, ops[..i], key), ops[i].now)
  }

  lemma LetThrough(config: Config, ops: seq<Op>, key: Key, from: Time, to: Time)
    requires ops != [] && AcceptedLast(config, ops, key, from, to)
    requires NonePassed(config.window, CallsFor(config, ops[..|ops| - 1], key), ops[|ops| - 1].now)
    ensures |InWindow(Registered(CallsFor(config, ops[..|ops| - 1], key)), ops[|ops| - 1].now - config.window)| < config.maxEvents
  {
    var first, last := ops[..|ops| - 1], ops[|ops| - 1];
    var calls := CallsFor(config, first, key);
    ErrorsHaveCauses(config.window, calls, last.now);
    QueueIsOfCalls(config, first, key);
    StepIsPerKey(config, Run(config, first).0, last, key);
    assert Run(config, ops).1[|ops| - 1] == Step(config, Run(config, first).0, last).1;
    hide Run, Step, CallsFor, Prune, InWindow, Registered, NonePassed, NoneBehind, QueueAfter;
  }

  /** Every closed interval as long as the window, wherever it starts, contains at most `maxEvents`
      accepted hits on a key, in any run in which no hit misses an event of its window (and a reset
      starts the count again). What is counted too much never breaks the bound. */
  lemma {:induction false} SlidingBound(config: Config, ops: seq<Op>, key: Key, from: Time)
    requires HitsMissNothing(config, ops, key)
    ensures Accepted(config, ops, key, from, from + config.window) <= if config.maxEvents >= 0 then config.maxEvents else 0
  {
    if ops != [] {
      var first, last := ops[..|ops| - 1], ops[|ops| - 1];
      assert HitsMissNothing(config, first, key) by {
        assert forall i :: 0 <= i < |first| ==> first[..i] == ops[..i];
      }
      SlidingBound(config, first, key, from);
      hide Run, Registered, CallsFor, NonePassed, InWindow;
      if AcceptedLast(config, ops, key, from, from + config.window) {
        LetThrough(config, ops, key, from, from + config.window);
        AcceptedAreRegistered(config, first, key, from, from + config.window);
        WindowShrinks(Registered(CallsFor(config, first, key)), last.now - config.window, from);
      }
    }
  }

  /** In particular with times in order. */
  lemma TimelyMissesNothing(config: Config, ops: seq<Op>, key: Key)
    requires Timely(config, ops, key)
    ensures HitsMissNothing(config, ops, key)
  {
    hide CallsFor, NonePassed, NoneBehind;
  }

  // ---------------------------------------------------------------- times registered out of order

  lemma RunOfThree(config: Config, a: Op, b: Op, c: Op)
    ensures var q := Step(config, Step(config, map[], a).0, b).0;
            Run(config, [a, b, c]).1[2] == Step(config, q, c).1 && Run(config, [a]).1[0] == Step(config, map[], a).1
    ensures var h := Reference(config, Reference(config, [], a).0, b).0;
            RunReference(config, [a, b, c]).1[2] == Reference(config, h, c).1
  {
    hide Step, Reference;
    assert [] + [a] == [a] && [a] + [b] == [a, b] && [a, b] + [c] == [a, b, c];
    RunNext(config, [], a);
    RunNext(config, [a], b);
    RunNext(config, [a, b], c);
    RunReferenceNext(config, [], a);
    RunReferenceNext(config, [a], b);
    RunReferenceNext(config, [a, b], c);
  }

  /** The queue of one key after one more call on it. */
  lemma QueueNext(config: Config, queues: Queues, op: Op, queue: seq<Time>, after: seq<Time>)
    requires !op.Reset? && QueueOf(queues, op.key) == queue && QueueStep(config, queue, op).0 == after
    ensures QueueOf(Step(config, queues, op).0, op.key) == after
    ensures Step(config, queues, op).1 == QueueStep(config, queue, op).1
  {
    StepIsPerKey(config, queues, op, op.key);
  }

  lemma TimesNext(config: Config, history: seq<Event>, op: Op, times: seq<Time>, after: seq<Time>)
    requires !op.Reset? && TimesOf(history, op.key) == times && HistoryStep(config, times, op).0 == after
    ensures TimesOf(Reference(config, history, op).0, op.key) == after
    ensures Reference(config, history, op).1 == HistoryStep(config, times, op).1
  {
    ReferenceIsPerKey(config, history, op, op.key);
  }

  lemma QueuesKeepTheStraggler(config: Config)
    requires config == Config(2, 10.0)
    ensures Step(config, Step(config, Step(config, map[], Hit("k", 11.0)).0, Hit("k", 0.0)).0, IsLimited("k", 20.5)).1
  {
    var q := Step(config, map[], Hit("k", 11.0)).0;
    QueueNext(config, map[], Hit("k", 11.0), [], [11.0]);
    assert Prune([11.0], -10.0) == [11.0];
    QueueNext(config, q, Hit("k", 0.0), [11.0], [11.0, 0.0]);
    assert Prune([11.0, 0.0], 10.5) == [11.0, 0.0];
    QueueNext(config, Step(config, q, Hit("k", 0.0)).0, IsLimited("k", 20.5), [11.0, 0.0], [11.0, 0.0]);
  }

  lemma HistoryDoesNot(config: Config)
    requires config == Config(2, 10.0)
    ensures !Reference(config, Reference(config, Reference(config, [], Hit("k", 11.0)).0, Hit("k", 0.0)).0, IsLimited("k", 20.5)).1
  {
    var h := Reference(config, [], Hit("k", 11.0)).0;
    TimesNext(config, [], Hit("k", 11.0), [], [11.0]);
    assert InWindow([11.0], -10.0) == InWindow([], -10.0) + [11.0];
    TimesNext(config, h, Hit("k", 0.0), [11.0], [11.0, 0.0]);
    assert [11.0, 0.0][..1] == [11.0];
    assert InWindow([11.0, 0.0], 10.5) == InWindow([11.0], 10.5);
    assert InWindow([11.0], 10.5) == InWindow([], 10.5) + [11.0];
    TimesNext(config, Reference(config, h, Hit("k", 0.0)).0, IsLimited("k", 20.5), [11.0, 0.0], [11.0, 0.0]);
  }

  /** A hit reads the clock before it takes the lock, so two threads can register their times out of
      order. An event kept behind a newer one is counted after its window: a call is limited that the
      full history lets through. */
  lemma OutOfOrderClockMisjudges() returns (config: Config, ops: seq<Op>)
    ensures !Timely(config, ops, "k") && ops != []
    ensures Run(config, ops).1[|ops| - 1] && !RunReference(config, ops).1[|ops| - 1]
  {
    config := Config(2, 10.0);
    ops := [Hit("k", 11.0), Hit("k", 0.0), IsLimited("k", 20.5)];
    hide Step, Reference, Run, RunReference, Timely;
    QueuesKeepTheStraggler(config);
    HistoryDoesNot(config);
    RunOfThree(config, ops[0], ops[1], ops[2]);
    if Timely(config, ops, "k") {
      VerdictsRefine(config, ops, "k", 2);
    }
  }

  /** An event dropped by a call with a later time is missed by one that comes after it with an earlier
      time: that hit is let through, and one interval as long as the window holds more hits than allowed. */
  lemma LateHitBreaksTheBound() returns (config: Config, ops: seq<Op>, from: Time)
    ensures !HitsMissNothing(config, ops, "k") && ops != []
    ensures !Run(config, ops).1[|ops| - 1] && RunReference(config, ops).1[|ops| - 1]
    ensures Accepted(config, ops, "k", from, from + config.window) > config.maxEvents > 0
  {
    config, from := Config(1, 10.0), 4.95;
    ops := [Hit("k", 5.0), IsLimited("k", 16.0), Hit("k", 14.9)];
    var q := Step(config, map[], ops[0]).0;
    var h := Reference(config, [], ops[0]).0;
    assert Prune([5.0], 6.0) == Prune([], 6.0) == [];
    assert InWindow([5.0], 6.0) == InWindow([], 6.0) && InWindow([5.0], 4.9) == InWindow([], 4.9) + [5.0];
    QueueNext(config, map[], ops[0], [], [5.0]);
    TimesNext(config, [], ops[0], [], [5.0]);
    QueueNext(config, q, ops[1], [5.0], []);
    TimesNext(config, h, ops[1], [5.0], [5.0]);
    QueueNext(config, Step(config, q, ops[1]).0, ops[2], [], [14.9]);
    TimesNext(config, Reference(config, h, ops[1]).0, ops[2], [5.0], [5.0]);
    RunOfThree(config, ops[0], ops[1], ops[2]);
    AcceptedOfThree(config, ops, from);
    hide Step, Reference, Run, RunReference, HitsMissNothing, Accepted;
    if HitsMissNothing(config, ops, "k") {
      SlidingBound(config, ops, "k", from);
    }
  }

  lemma AcceptedOfThree(config: Config, ops: seq<Op>, from: Time)
    requires |ops| == 3 && ops[0].Hit? && ops[1].IsLimited? && ops[2].Hit? && ops[0].key == ops[2].key
    requires from <= ops[0].now <= from + config.window && from <= ops[2].now <= from + config.window
    requires !Run(config, ops[..1]).1[0] && !Run(config, ops).1[2]
    ensures Accepted(config, ops, ops[0].key, from, from + config.window) == 2
  {
    hide Run;
    var key, to := ops[0].key, from + config.window;
    assert ops[..2][..1] == ops[..1] && ops[..1][..0] == [];
    assert Accepted(config, ops[..1], key, from, to) == 1;
    assert Accepted(config, ops[..2], key, from, to) == 1;
  }
}
