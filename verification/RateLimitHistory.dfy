/**
 What the pruned queues make of times that are registered out of order: exactly what they count,
 when that is the window, and what then holds of every run.
 */
module RateLimitHistory {
  import opened RateLimit

  /** A call on one key, and whether the limiter registered its time. */
  datatype Call = Call(now: Time, registered: bool)

  predicate Registers(op: Op, limited: bool) {
    op.Record? || (op.Hit? && !limited)
  }

  /** The calls of a run on a key since the last reset. */
  function CallsFor(config: Config, ops: seq<Op>, key: Key): seq<Call> {
    if ops == [] || ops[|ops| - 1].Reset? then []
    else
      var last := ops[|ops| - 1];
      CallsFor(config, ops[..|ops| - 1], key)
      + if last.key == key then [Call(last.now, Registers(last, Run(config, ops).1[|ops| - 1]))] else []
  }

  /** Every time registered, none forgotten. */
  function Registered(calls: seq<Call>): seq<Time> {
    if calls == [] then []
    else
      var last := calls[|calls| - 1];
      Registered(calls[..|calls| - 1]) + if last.registered then [last.now] else []
  }

  /** What is left of them in the queue. */
  function QueueAfter(window: Time, calls: seq<Call>): seq<Time> {
    if calls == [] then []
    else
      var last := calls[|calls| - 1];
      Prune(QueueAfter(window, calls[..|calls| - 1]), last.now - window) + if last.registered then [last.now] else []
  }

  lemma QueueStepRegisters(config: Config, queue: seq<Time>, op: Op)
    requires !op.Reset?
    ensures var (after, limited) := QueueStep(config, queue, op);
            after == Prune(queue, op.now - config.window) + if Registers(op, limited) then [op.now] else []
  {
    hide Prune;
  }

  lemma {:induction false} QueueIsOfCalls(config: Config, ops: seq<Op>, key: Key)
    ensures QueueOf(Run(config, ops).0, key) == QueueAfter(config.window, CallsFor(config, ops, key))
  {
    if ops != [] {
      var first, last := ops[..|ops| - 1], ops[|ops| - 1];
      var before, calls := CallsFor(config, first, key), CallsFor(config, ops, key);
      QueueIsOfCalls(config, first, key);
      StepIsPerKey(config, Run(config, first).0, last, key);
      if last.Reset? {
        assert calls == [];
      } else if last.key != key {
        assert calls == before + [] == before;
      } else {
        hide Step, Prune, QueueStep;
        var queue, limited := QueueOf(Run(config, first).0, key), Run(config, ops).1[|ops| - 1];
        assert calls == before + [Call(last.now, Registers(last, limited))];
        assert calls[..|calls| - 1] == before;
        QueueStepRegisters(config, queue, last);
        assert (QueueOf(Run(config, ops).0, key), limited) == QueueStep(config, queue, last);
        assert QueueAfter(config.window, calls) ==
               Prune(queue, last.now - config.window) + if Registers(last, limited) then [last.now] else [];
      }
    }
  }

  // ---------------------------------------------------------------- what pruning leaves out of account

  /** Pruning drops exactly the leading events older than the cutoff. */
  lemma {:induction false} PruneDropsOld(queue: seq<Time>, cutoff: Time)
    ensures var kept := Prune(queue, cutoff);
            && |kept| <= |queue| && kept == queue[|queue| - |kept|..]
            && (forall i :: 0 <= i < |queue| - |kept| ==> queue[i] < cutoff)
            && (kept != [] ==> kept[0] >= cutoff)
  {
    if queue != [] && queue[0] < cutoff {
      PruneDropsOld(queue[1..], cutoff);
    }
  }

  function Gone(queue: seq<Time>, cutoff: Time): (r: seq<Time>)
    ensures r + Prune(queue, cutoff) == queue
    ensures forall i :: 0 <= i < |r| ==> r[i] < cutoff
  {
    PruneDropsOld(queue, cutoff);
    queue[..|queue| - |Prune(queue, cutoff)|]
  }

  lemma Regroup(a: seq<Time>, b: seq<Time>, c: seq<Time>, d: seq<Time>)
    ensures (a + b) + (c + d) == (a + (b + c)) + d
  {
  }

  /** What pruning took away: events are dropped oldest first, so it is a beginning of them. */
  function Dropped(window: Time, calls: seq<Call>): (r: seq<Time>)
    ensures r + QueueAfter(window, calls) == Registered(calls)
  {
    if calls == [] then []
    else
      var start, last := calls[..|calls| - 1], calls[|calls| - 1];
      var queue, since := QueueAfter(window, start), last.now - window;
      Regroup(Dropped(window, start), Gone(queue, since), Prune(queue, since), if last.registered then [last.now] else []);
      Dropped(window, start) + Gone(queue, since)
  }

  lemma {:induction false} InWindowConcat(a: seq<Time>, b: seq<Time>, since: Time)
    ensures InWindow(a + b, since) == InWindow(a, since) + InWindow(b, since)
  {
    if b == [] {
      assert a + b == a;
    } else {
      InWindowConcat(a, b[..|b| - 1], since);
      assert (a + b)[..|a + b| - 1] == a + b[..|b| - 1];
    }
  }

  lemma {:induction false} InWindowIsIn(times: seq<Time>, since: Time)
    ensures |InWindow(times, since)| <= |times|
    ensures forall p :: 0 <= p < |InWindow(times, since)| ==> InWindow(times, since)[p] >= since
  {
    if times != [] {
      InWindowIsIn(times[..|times| - 1], since);
    }
  }

  lemma {:induction false} AllInWindowExactly(times: seq<Time>, since: Time)
    ensures |InWindow(times, since)| == |times| <==> forall p :: 0 <= p < |times| ==> times[p] >= since
    ensures |InWindow(times, since)| == |times| ==> InWindow(times, since) == times
  {
    InWindowIsIn(times, since);
    if times != [] {
      var n := |times| - 1;
      AllInWindowExactly(times[..n], since);
      InWindowIsIn(times[..n], since);
      assert times == times[..n] + [times[n]];
      assert forall p :: 0 <= p < n ==> times[..n][p] == times[p];
    }
  }

  lemma {:induction false} NoneInWindowExactly(times: seq<Time>, since: Time)
    ensures InWindow(times, since) == [] <==> forall p :: 0 <= p < |times| ==> times[p] < since
  {
    if times != [] {
      var n := |times| - 1;
      NoneInWindowExactly(times[..n], since);
      assert forall p :: 0 <= p < n ==> times[..n][p] == times[p];
    }
  }

  /** The window of all that was registered: what was dropped of it and what is kept of it. */
  lemma WindowSplits(window: Time, calls: seq<Call>, since: Time)
    ensures InWindow(Registered(calls), since) ==
            InWindow(Dropped(window, calls), since) + InWindow(Prune(QueueAfter(window, calls), since), since)
  {
    var queue := QueueAfter(window, calls);
    InWindowConcat(Dropped(window, calls), queue, since);
    InWindowConcat(Gone(queue, since), Prune(queue, since), since);
    NoneInWindowExactly(Gone(queue, since), since);
    hide Prune, InWindow, Dropped, Gone;
  }

  /** After any run at all, what a call counts is the events of its window, without those an earlier
      call with a later time dropped, and with the older ones kept behind a newer one. */
  lemma EveryRunCounts(config: Config, ops: seq<Op>, key: Key, now: Time)
    ensures var kept, since := Prune(QueueOf(Run(config, ops).0, key), now - config.window), now - config.window;
            var calls := CallsFor(config, ops, key);
            var window, lost, stale := |InWindow(Registered(calls), since)|, |InWindow(Dropped(config.window, calls), since)|,
                                       |kept| - |InWindow(kept, since)|;
            |kept| == window - lost + stale && lost >= 0 && stale >= 0
  {
    QueueIsOfCalls(config, ops, key);
    WindowSplits(config.window, CallsFor(config, ops, key), now - config.window);
    InWindowIsIn(Prune(QueueOf(Run(config, ops).0, key), now - config.window), now - config.window);
    hide Run, QueueAfter, Prune, Registered, Dropped, InWindow, CallsFor;
  }

  /** A call at `now` would find in the queue exactly the events of its window. */
  predicate CountsRight(window: Time, calls: seq<Call>, now: Time) {
    Prune(QueueAfter(window, calls), now - window) == InWindow(Registered(calls), now - window)
  }

  predicate NothingLost(window: Time, calls: seq<Call>, now: Time) {
    var dropped := Dropped(window, calls);
    forall p :: 0 <= p < |dropped| ==> dropped[p] < now - window
  }

  predicate NothingStale(window: Time, calls: seq<Call>, now: Time) {
    var kept := Prune(QueueAfter(window, calls), now - window);
    forall p :: 0 <= p < |kept| ==> kept[p] >= now - window
  }

  /** It does exactly when neither happens: the two errors never cancel. */
  lemma RightWithoutErrors(window: Time, calls: seq<Call>, now: Time)
    ensures CountsRight(window, calls, now) <==> NothingLost(window, calls, now) && NothingStale(window, calls, now)
  {
    var since := now - window;
    var kept, dropped := Prune(QueueAfter(window, calls), since), Dropped(window, calls);
    WindowSplits(window, calls, since);
    NoneInWindowExactly(dropped, since);
    AllInWindowExactly(kept, since);
    InWindowIsIn(kept, since);
    InWindowIsIn(Registered(calls), since);
    hide Prune, Dropped, QueueAfter, Registered, InWindow;
  }

  // ---------------------------------------------------------------- the same in terms of the times of the calls

  /** Some later call was made when event `i` was already out of the window. */
  ghost predicate Passed(window: Time, calls: seq<Call>, i: nat) {
    i < |calls| && exists j :: i < j < |calls| && calls[i].now < calls[j].now - window
  }

  /** Of the calls so far, none moved the window past an event that is in the window of a call at `now`. */
  ghost predicate NonePassed(window: Time, calls: seq<Call>, now: Time) {
    forall i: nat :: i < |calls| && calls[i].registered && Passed(window, calls, i) ==> calls[i].now < now - window
  }

  /** Two events, the first still in the window, the second not. */
  predicate Straddle(x: Call, y: Call, since: Time) {
    x.registered && y.registered && x.now >= since > y.now
  }

  /** And no event that is out of the window by then was registered after one that is still in it. */
  ghost predicate NoneBehind(window: Time, calls: seq<Call>, now: Time) {
    forall i: nat, j: nat :: i < j < |calls| ==> !Straddle(calls[i], calls[j], now - window)
  }

  ghost predicate InOrder(window: Time, calls: seq<Call>, now: Time) {
    NonePassed(window, calls, now) && NoneBehind(window, calls, now)
  }

  ghost predicate AlwaysRight(window: Time, calls: seq<Call>) {
    forall k :: 0 <= k < |calls| ==> CountsRight(window, calls[..k], calls[k].now)
  }

  /** The call that registered event `p`. */
  function Origin(calls: seq<Call>, p: nat): (i: nat)
    requires p < |Registered(calls)|
    ensures i < |calls| && calls[i].registered && calls[i].now == Registered(calls)[p]
    ensures |Registered(calls[..i])| == p
  {
    var n := |calls| - 1;
    assert calls[..n + 1] == calls;
    if p == |Registered(calls[..n])| then n
    else
      var i := Origin(calls[..n], p);
      assert calls[..n][..i] == calls[..i];
      i
  }

  /** The calls up to `j` registered at least what those up to `i` did, and one more if `i` did. */
  lemma {:induction false} RegisteredGrows(calls: seq<Call>, i: nat, j: nat)
    requires i <= j <= |calls|
    ensures |Registered(calls[..i])| <= |Registered(calls[..j])|
    ensures Registered(calls[..i]) <= Registered(calls[..j])
    ensures i < j && calls[i].registered ==>
              |Registered(calls[..i])| < |Registered(calls[..j])| && Registered(calls[..j])[|Registered(calls[..i])|] == calls[i].now
    decreases j - i
  {
    if i < j {
      assert calls[..j][..j - 1] == calls[..j - 1];
      RegisteredGrows(calls, i, j - 1);
    }
  }

  lemma OriginsGrow(calls: seq<Call>, p: nat, q: nat)
    requires p < q < |Registered(calls)|
    ensures Origin(calls, p) < Origin(calls, q)
  {
    var i, j := Origin(calls, p), Origin(calls, q);
    if j <= i {
      RegisteredGrows(calls, j, i);
    }
  }

  /** The calls registered an event for each that says so. */
  lemma OriginOf(calls: seq<Call>, i: nat)
    requires i < |calls| && calls[i].registered
    ensures |Registered(calls[..i])| < |Registered(calls)| && Origin(calls, |Registered(calls[..i])|) == i
  {
    var p := |Registered(calls[..i])|;
    RegisteredGrows(calls, i, |calls|);
    assert calls[..|calls|] == calls;
    var k := Origin(calls, p);
    if k < i {
      RegisteredGrows(calls, k, i);
    } else if k > i {
      RegisteredGrows(calls, i, k);
    }
  }

  lemma OriginBefore(calls: seq<Call>, p: nat)
    requires calls != [] && p < |Registered(calls[..|calls| - 1])|
    ensures p < |Registered(calls)| && Origin(calls, p) == Origin(calls[..|calls| - 1], p)
  {
  }

  lemma PassedNext(window: Time, calls: seq<Call>, i: nat)
    requires calls != [] && i < |calls| - 1
    ensures Passed(window, calls, i) <==>
            Passed(window, calls[..|calls| - 1], i) || calls[i].now < calls[|calls| - 1].now - window
  {
    var start := calls[..|calls| - 1];
    if Passed(window, start, i) {
      var j :| i < j < |start| && start[i].now < start[j].now - window;
      assert calls[i].now < calls[j].now - window;
    }
  }

  lemma SplitByValue(gone: seq<Time>, kept: seq<Time>, since: Time, m: nat)
    requires forall i :: 0 <= i < |gone| ==> gone[i] < since
    requires forall i :: 0 <= i < |kept| ==> kept[i] >= since
    requires m < |gone + kept|
    ensures m < |gone| <==> (gone + kept)[m] < since
  {
  }

  /** A call that keeps nothing stale drops exactly what is out of its window. */
  lemma DroppedNow(window: Time, calls: seq<Call>, now: Time, p: nat)
    requires p < |Registered(calls)| && NothingStale(window, calls, now)
    ensures var dropped := |Dropped(window, calls)|;
            p < dropped + |Gone(QueueAfter(window, calls), now - window)| <==>
            p < dropped || Registered(calls)[p] < now - window
  {
    var since, dropped := now - window, |Dropped(window, calls)|;
    var gone := Gone(QueueAfter(window, calls), since);
    hide Dropped, QueueAfter, Prune, Registered, Gone;
    if p >= dropped {
      Queued(window, calls, p);
      SplitByValue(gone, Prune(QueueAfter(window, calls), since), since, p - dropped);
    }
  }

  lemma DropsNext(window: Time, calls: seq<Call>)
    requires calls != []
    ensures var start := calls[..|calls| - 1];
            |Dropped(window, calls)| == |Dropped(window, start)| + |Gone(QueueAfter(window, start), calls[|calls| - 1].now - window)|
  {
    hide QueueAfter, Gone;
  }

  lemma DroppedArePassedNext(window: Time, calls: seq<Call>, p: nat)
    requires calls != [] && p < |Registered(calls[..|calls| - 1])|
    requires CountsRight(window, calls[..|calls| - 1], calls[|calls| - 1].now)
    requires p < |Dropped(window, calls[..|calls| - 1])| <==>
               Passed(window, calls[..|calls| - 1], Origin(calls[..|calls| - 1], p))
    ensures p < |Registered(calls)| && (p < |Dropped(window, calls)| <==> Passed(window, calls, Origin(calls, p)))
  {
    hide Gone, QueueAfter, Dropped, Passed, CountsRight, NothingStale, NothingLost, Registered, Origin, Prune, InWindow;
    var start, now := calls[..|calls| - 1], calls[|calls| - 1].now;
    OriginBefore(calls, p);
    PassedNext(window, calls, Origin(calls, p));
    RightWithoutErrors(window, start, now);
    DropsNext(window, calls);
    DroppedNow(window, start, now, p);
    var i := Origin(start, p);
    assert start[i].now == Registered(start)[p] && calls[i] == start[i];
  }

  lemma RightBefore(window: Time, calls: seq<Call>)
    requires AlwaysRight(window, calls) && calls != []
    ensures AlwaysRight(window, calls[..|calls| - 1])
    ensures CountsRight(window, calls[..|calls| - 1], calls[|calls| - 1].now)
  {
    hide CountsRight;
    assert forall k :: 0 <= k < |calls| - 1 ==> calls[..|calls| - 1][..k] == calls[..k];
  }

  /** If every call so far counted right, what was dropped is what some call moved the window past. */
  lemma {:induction false} DroppedArePassed(window: Time, calls: seq<Call>, p: nat)
    requires AlwaysRight(window, calls) && p < |Registered(calls)|
    ensures p < |Dropped(window, calls)| <==> Passed(window, calls, Origin(calls, p))
  {
    var start := calls[..|calls| - 1];
    if p < |Registered(start)| {
      RightBefore(window, calls);
      DroppedArePassed(window, start, p);
      DroppedArePassedNext(window, calls, p);
    } else {
      DropsBefore(window, calls);
      hide Dropped, AlwaysRight;
      assert Origin(calls, p) == |start|;
    }
  }

  lemma DropsBefore(window: Time, calls: seq<Call>)
    requires calls != []
    ensures |Dropped(window, calls)| <= |Registered(calls[..|calls| - 1])|
  {
  }

  /** However the calls went, nothing is dropped before some call moved the window past it. */
  lemma {:induction false} DroppedWerePassed(window: Time, calls: seq<Call>, p: nat)
    requires p < |Dropped(window, calls)|
    ensures p < |Registered(calls)| && Passed(window, calls, Origin(calls, p))
  {
    var start, since := calls[..|calls| - 1], calls[|calls| - 1].now - window;
    DropsNext(window, calls);
    DropsBefore(window, calls);
    OriginBefore(calls, p);
    var dropped, gone := |Dropped(window, start)|, Gone(QueueAfter(window, start), since);
    if p < dropped {
      DroppedWerePassed(window, start, p);
    } else {
      hide Dropped, QueueAfter, Gone, Prune, Registered, Origin;
      Queued(window, start, p);
      assert (gone + Prune(QueueAfter(window, start), since))[p - dropped] == gone[p - dropped];
      assert calls[Origin(calls, p)] == start[Origin(start, p)];
    }
    PassedNext(window, calls, Origin(calls, p));
  }

  lemma NonePassedLosesNothing(window: Time, calls: seq<Call>, now: Time)
    requires NonePassed(window, calls, now)
    ensures NothingLost(window, calls, now)
  {
    var dropped := Dropped(window, calls);
    assert forall p :: 0 <= p < |dropped| ==> dropped[p] == Registered(calls)[p];
    hide Dropped, Registered, Passed;
    forall p: nat | p < |dropped| ensures dropped[p] < now - window {
      DroppedWerePassed(window, calls, p);
      assert calls[Origin(calls, p)].registered;
    }
  }

  lemma LostArePassed(window: Time, calls: seq<Call>, now: Time)
    requires AlwaysRight(window, calls)
    ensures NothingLost(window, calls, now) <==> NonePassed(window, calls, now)
  {
    var dropped := Dropped(window, calls);
    assert forall p :: 0 <= p < |dropped| ==> dropped[p] == Registered(calls)[p];
    hide Dropped, Registered, Passed, AlwaysRight;
    if NothingLost(window, calls, now) {
      forall i: nat | i < |calls| && calls[i].registered && Passed(window, calls, i) ensures calls[i].now < now - window {
        OriginOf(calls, i);
        DroppedArePassed(window, calls, |Registered(calls[..i])|);
        assert dropped[|Registered(calls[..i])|] in dropped;
      }
    }
    if NonePassed(window, calls, now) {
      NonePassedLosesNothing(window, calls, now);
    }
  }

  /** Event `p` as it stands in the queue. */
  lemma Queued(window: Time, calls: seq<Call>, p: nat)
    requires |Dropped(window, calls)| <= p < |Registered(calls)|
    ensures p - |Dropped(window, calls)| < |QueueAfter(window, calls)|
    ensures QueueAfter(window, calls)[p - |Dropped(window, calls)|] == Registered(calls)[p]
  {
  }

  /** Which events of the queue a call at `now` keeps. */
  lemma KeptExactly(queue: seq<Time>, since: Time, p: nat)
    requires p < |queue|
    ensures p >= |queue| - |Prune(queue, since)| <==> exists m :: 0 <= m <= p && queue[m] >= since
  {
    PruneDropsOld(queue, since);
    var kept := Prune(queue, since);
    hide Prune;
    if kept != [] {
      assert queue[|queue| - |kept|] == kept[0];
    }
  }

  /** The first of two straddling events is in the queue, so the second is kept behind it. */
  lemma BehindIsStale(window: Time, calls: seq<Call>, now: Time, i: nat, j: nat)
    requires NothingLost(window, calls, now) && i < j < |calls| && Straddle(calls[i], calls[j], now - window)
    ensures !NothingStale(window, calls, now)
  {
    hide QueueAfter, Prune, Dropped, Registered, Origin;
    var queue, dropped, since := QueueAfter(window, calls), Dropped(window, calls), now - window;
    var p, q := |Registered(calls[..i])|, |Registered(calls[..j])|;
    OriginOf(calls, i);
    OriginOf(calls, j);
    RegisteredGrows(calls, i, j);
    assert (dropped + queue)[p] == calls[i].now && (dropped + queue)[q] == calls[j].now;
    assert |dropped| <= p;
    PruneDropsOld(queue, since);
    var kept := Prune(queue, since);
    KeptExactly(queue, since, q - |dropped|);
    assert queue[p - |dropped|] >= since;
    assert queue[q - |dropped|] == kept[q - |dropped| - (|queue| - |kept|)];
  }

  lemma NoneBehindKeepsNothingStale(window: Time, calls: seq<Call>, now: Time)
    requires NoneBehind(window, calls, now)
    ensures NothingStale(window, calls, now)
  {
    var queue, dropped, since := QueueAfter(window, calls), |Dropped(window, calls)|, now - window;
    var kept := Prune(queue, since);
    PruneDropsOld(queue, since);
    hide QueueAfter, Prune;
    forall m: nat | m < |kept| ensures kept[m] >= since {
      var p, q := dropped + |queue| - |kept|, dropped + |queue| - |kept| + m;
      assert |Registered(calls)| == dropped + |queue|;
      Queued(window, calls, p);
      Queued(window, calls, q);
      assert kept[0] == queue[p - dropped] && kept[m] == queue[q - dropped];
      if m > 0 {
        OriginsGrow(calls, p, q);
      }
    }
  }

  lemma StaleAreBehind(window: Time, calls: seq<Call>, now: Time)
    requires NothingLost(window, calls, now)
    ensures NothingStale(window, calls, now) <==> NoneBehind(window, calls, now)
  {
    hide NothingLost, NothingStale, Straddle;
    if NothingStale(window, calls, now) {
      forall i: nat, j: nat | i < j < |calls| ensures !Straddle(calls[i], calls[j], now - window) {
        if Straddle(calls[i], calls[j], now - window) {
          BehindIsStale(window, calls, now, i, j);
        }
      }
    }
    if NoneBehind(window, calls, now) {
      NoneBehindKeepsNothingStale(window, calls, now);
    }
  }

  /** If every call so far counted right, the next does exactly when its time and theirs are in
      order: known before the call, from the times alone. */
  lemma NextCountsRightExactly(window: Time, calls: seq<Call>, now: Time)
    requires AlwaysRight(window, calls)
    ensures CountsRight(window, calls, now) <==> InOrder(window, calls, now)
  {
    RightWithoutErrors(window, calls, now);
    LostArePassed(window, calls, now);
    hide CountsRight, NothingLost, NothingStale, AlwaysRight, NonePassed, NoneBehind;
    if NothingLost(window, calls, now) {
      StaleAreBehind(window, calls, now);
    }
  }

  /** However the calls went, what goes wrong has its cause: a call counts too little only if one
      before it moved the window past an event it should count, too much only if an event out of its
      window was registered behind one that is in it. */
  lemma ErrorsHaveCauses(window: Time, calls: seq<Call>, now: Time)
    ensures var counted, actual := |Prune(QueueAfter(window, calls), now - window)|, |InWindow(Registered(calls), now - window)|;
            && (counted < actual ==> !NonePassed(window, calls, now))
            && (counted > actual ==> !NoneBehind(window, calls, now))
  {
    var since := now - window;
    var kept, dropped := Prune(QueueAfter(window, calls), since), Dropped(window, calls);
    WindowSplits(window, calls, since);
    NoneInWindowExactly(dropped, since);
    InWindowIsIn(kept, since);
    AllInWindowExactly(kept, since);
    hide Prune, Dropped, QueueAfter, Registered, InWindow, NonePassed, NoneBehind;
    if NonePassed(window, calls, now) {
      NonePassedLosesNothing(window, calls, now);
    }
    if NoneBehind(window, calls, now) {
      NoneBehindKeepsNothingStale(window, calls, now);
    }
  }
}
