/**
 What each call of the limiter answers and leaves, by position in the queue and by counting events.
 */
module RateLimitAnswers {
  import opened RateLimit

  /** The first `n` events are older than `cutoff`, and the next one, if any, is not. */
  predicate OldestAre(queue: seq<Time>, cutoff: Time, n: nat) {
    && n <= |queue|
    && (forall i :: 0 <= i < n ==> queue[i] < cutoff)
    && (n < |queue| ==> queue[n] >= cutoff)
  }

  lemma {:induction false} PruneExactly(queue: seq<Time>, cutoff: Time, n: nat)
    requires OldestAre(queue, cutoff, n)
    ensures Prune(queue, cutoff) == queue[n..]
  {
    if n > 0 {
      PruneExactly(queue[1..], cutoff, n - 1);
      assert queue[1..][n - 1..] == queue[n..];
    } else {
      assert queue[0..] == queue;
    }
  }

  lemma {:induction false} SomeAreOldest(queue: seq<Time>, cutoff: Time) returns (n: nat)
    ensures OldestAre(queue, cutoff, n)
  {
    if queue != [] && queue[0] < cutoff {
      var m := SomeAreOldest(queue[1..], cutoff);
      n := m + 1;
      forall i | 0 < i < n ensures queue[i] < cutoff {
        assert queue[1..][i - 1] == queue[i];
      }
    } else {
      n := 0;
    }
  }

  /** A call drops the events in front that left the window. It says the limit is exceeded exactly when
      as many as allowed remain, which a registration never does, and adds its own event unless it only
      asks or is told so. */
  lemma AnswersExactly(config: Config, queues: Queues, op: Op, n: nat)
    requires !op.Reset? && OldestAre(QueueOf(queues, op.key), op.now - config.window, n)
    ensures var (after, limited) := Step(config, queues, op);
            var kept := QueueOf(queues, op.key)[n..];
            && (limited <==> !op.Record? && |kept| >= config.maxEvents)
            && QueueOf(after, op.key) == kept + (if op.Record? || (op.Hit? && |kept| < config.maxEvents) then [op.now] else [])
  {
    PruneExactly(QueueOf(queues, op.key), op.now - config.window, n);
    StepIsPerKey(config, queues, op, op.key);
    hide Prune, Step;
  }

  /** Every key that was called is remembered; only a registration that leaves more than ten thousand
      forgets some, those without events. */
  lemma KeysExactly(config: Config, queues: Queues, op: Op)
    requires !op.Reset?
    ensures var after, called := Step(config, queues, op).0, queues.Keys + {op.key};
            && (!op.Record? || |called| <= 10_000 ==> after.Keys == called)
            && (op.Record? && |called| > 10_000 ==> forall key :: key in after <==> key == op.key || (key in queues && queues[key] != []))
    ensures forall key :: key != op.key ==> QueueOf(Step(config, queues, op).0, key) == QueueOf(queues, key)
  {
    forall key | key != op.key ensures QueueOf(Step(config, queues, op).0, key) == QueueOf(queues, key) {
      StepIsPerKey(config, queues, op, key);
    }
    if op.Record? {
      RecordedKeys(config, queues, op);
    }
    hide Prune, QueueOf, Purged;
  }

  lemma RecordedKeys(config: Config, queues: Queues, op: Op)
    requires op.Record?
    ensures var after, called := Step(config, queues, op).0, queues.Keys + {op.key};
            && (|called| <= 10_000 ==> after.Keys == called)
            && (|called| > 10_000 ==> forall key :: key in after <==> key == op.key || (key in queues && queues[key] != []))
  {
    hide Prune, QueueOf, Purged;
    var pruned := Pruned(queues, op.key, op.now - config.window);
    var added := pruned[op.key := pruned[op.key] + [op.now]];
    assert added.Keys == queues.Keys + {op.key} && |added| == |added.Keys|;
    assert Step(config, queues, op).0 == if |added| > 10_000 then Purged(added) else added;
    assert forall key <- queues :: key != op.key ==> added[key] == queues[key];
    assert added[op.key] != [];
    PurgedKeys(added);
    hide Step;
  }

  lemma PurgedKeys(queues: Queues)
    ensures forall key :: key in Purged(queues) <==> key in queues && queues[key] != []
  {
  }

  /** Nothing is remembered after a reset. */
  lemma ResetExactly(config: Config, queues: Queues, now: Time)
    ensures Step(config, queues, Op.Reset(now)).0 == map[]
  {
  }

  /** Asking foretells what an attempt at that moment is told, and leaves it so. */
  lemma AskingForetells(config: Config, queues: Queues, key: Key, now: Time)
    ensures var (asked, limited) := Step(config, queues, IsLimited(key, now));
            && limited == Step(config, queues, Hit(key, now)).1
            && limited == Step(config, asked, Hit(key, now)).1
            && QueueOf(Step(config, asked, Hit(key, now)).0, key) == QueueOf(Step(config, queues, Hit(key, now)).0, key)
  {
    var queue, cutoff := QueueOf(queues, key), now - config.window;
    var n := SomeAreOldest(queue, cutoff);
    AnswersExactly(config, queues, IsLimited(key, now), n);
    AnswersExactly(config, queues, Hit(key, now), n);
    var asked := Step(config, queues, IsLimited(key, now)).0;
    hide Step;
    assert QueueOf(asked, key) == queue[n..] && QueueOf(asked, key)[0..] == queue[n..];
    AnswersExactly(config, asked, Hit(key, now), 0);
  }

  // ---------------------------------------------------------------- the full history

  predicate HappenedSince(event: Event, key: Key, since: Time) {
    event.key == key && event.time >= since
  }

  /** The positions of the events of a key at or after `since`. */
  function EventsSince(history: seq<Event>, key: Key, since: Time): set<nat> {
    set i: nat | i < |history| && HappenedSince(history[i], key, since)
  }

  lemma CountNext(history: seq<Event>, event: Event, key: Key, since: Time)
    ensures Count(history + [event], key, since) == Count(history, key, since) + if HappenedSince(event, key, since) then 1 else 0
  {
    TimesOfAfter(history, event, key);
    assert After(history, event) == history + [event];
    var times, added := TimesOf(history, key), if event.key == key then [event.time] else [];
    hide TimesOf;
    assert Count(history + [event], key, since) == |InWindow(times + added, since)|;
    if event.key == key {
      assert (times + added)[..|times|] == times;
    } else {
      assert times + added == times;
    }
  }

  lemma EventsNext(history: seq<Event>, event: Event, key: Key, since: Time)
    ensures |EventsSince(history + [event], key, since)| ==
            |EventsSince(history, key, since)| + if HappenedSince(event, key, since) then 1 else 0
  {
    var n, before := |history|, EventsSince(history, key, since);
    hide HappenedSince;
    forall i: nat | i < n ensures (history + [event])[i] == history[i] {
    }
    assert EventsSince(history + [event], key, since) == before + if HappenedSince(event, key, since) then {n} else {};
    assert n !in before;
  }

  lemma {:induction false} CountsEvents(history: seq<Event>, key: Key, since: Time)
    ensures Count(history, key, since) == |EventsSince(history, key, since)|
  {
    if history == [] {
      assert EventsSince([], key, since) == {};
    } else {
      var start, n := history[..|history| - 1], |history| - 1;
      CountsEvents(start, key, since);
      CountNext(start, history[n], key, since);
      assert start + [history[n]] == history;
      hide Count;
      EventsNext(start, history[n], key, since);
      hide EventsSince;
    }
  }

  /** The limiter that forgets nothing says the limit is exceeded exactly when the key has as many
      events as allowed within the window before the call. */
  lemma ReferenceCountsEvents(config: Config, history: seq<Event>, op: Op)
    ensures var (after, limited) := Reference(config, history, op);
            var events := if op.Reset? then {} else EventsSince(history, op.key, op.now - config.window);
            && (limited <==> (op.Hit? || op.IsLimited?) && |events| >= config.maxEvents)
            && (op.Reset? ==> after == [])
            && (!op.Reset? ==>
                  after == history + if op.Record? || (op.Hit? && !limited) then [Event(op.key, op.now)] else [])
  {
    if !op.Reset? {
      CountsEvents(history, op.key, op.now - config.window);
    }
    hide Count, EventsSince;
  }
}
