/**
 The sliding-window limiter: a dictionary of pruned queues, which must give the verdicts of the
 full history of events, and the limiter that forgets nothing.
 */
module RateLimit {

  const MAX_KEYS := 10_000

  type Key = string
  type Time = real

  datatype Config = Config(maxEvents: int, window: Time)

  // ---------------------------------------------------------------- the pruned queues

  type Queues = map<Key, seq<Time>>

  /** Drops events from the front while they are older than `cutoff`. */
  function Prune(queue: seq<Time>, cutoff: Time): seq<Time> {
    if queue != [] && queue[0] < cutoff then Prune(queue[1..], cutoff) else queue
  }

  function QueueOf(queues: Queues, key: Key): seq<Time> {
    if key in queues then queues[key] else []
  }

  function Pruned(queues: Queues, key: Key, cutoff: Time): Queues {
    queues[key := Prune(QueueOf(queues, key), cutoff)]
  }

  function Purged(queues: Queues): Queues {
    map k <- queues | queues[k] != [] :: queues[k]
  }

  datatype Op =
    | Hit(key: Key, now: Time)
    | IsLimited(key: Key, now: Time)
    | Record(key: Key, now: Time)
    | Reset(now: Time)

  /** One call of the limiter: its new queues, and whether it says the limit is exceeded. */
  function Step(config: Config, queues: Queues, op: Op): (Queues, bool) {
    match op
    case Hit(key, now) =>
      var pruned := Pruned(queues, key, now - config.window);
      if |pruned[key]| >= config.maxEvents then (pruned, true)
      else (pruned[key := pruned[key] + [now]], false)
    case IsLimited(key, now) =>
      var pruned := Pruned(queues, key, now - config.window);
      (pruned, |pruned[key]| >= config.maxEvents)
    case Record(key, now) =>
      var pruned := Pruned(queues, key, now - config.window);
      var added := pruned[key := pruned[key] + [now]];
      (if |added| > MAX_KEYS then Purged(added) else added, false)
    case Reset(now) => (map[], false)
  }

  // ---------------------------------------------------------------- the full history

  datatype Event = Event(key: Key, time: Time)

  /** The events of one key, in the order they were registered. */
  function TimesOf(history: seq<Event>, key: Key): seq<Time> {
    if history == [] then []
    else
      var last := history[|history| - 1];
      TimesOf(history[..|history| - 1], key) + if last.key == key then [last.time] else []
  }

  /** The events at or after `since`. */
  function InWindow(times: seq<Time>, since: Time): seq<Time> {
    if times == [] then []
    else
      var last := times[|times| - 1];
      InWindow(times[..|times| - 1], since) + if last >= since then [last] else []
  }

  /** How many events of the key happened at or after `since`. */
  function Count(history: seq<Event>, key: Key, since: Time): nat {
    |InWindow(TimesOf(history, key), since)|
  }

  /** The limiter that forgets nothing. */
  function Reference(config: Config, history: seq<Event>, op: Op): (seq<Event>, bool) {
    match op
    case Hit(key, now) =>
      if Count(history, key, now - config.window) >= config.maxEvents then (history, true)
      else (history + [Event(key, now)], false)
    case IsLimited(key, now) => (history, Count(history, key, now - config.window) >= config.maxEvents)
    case Record(key, now) => (history + [Event(key, now)], false)
    case Reset(now) => ([], false)
  }

  function After(history: seq<Event>, event: Event): seq<Event> {
    history + [event]
  }

  lemma TimesOfAfter(history: seq<Event>, event: Event, key: Key)
    ensures TimesOf(After(history, event), key) == TimesOf(history, key) + if event.key == key then [event.time] else []
  {
    assert After(history, event)[..|history|] == history;
  }

  // ---------------------------------------------------------------- one key at a time

  predicate Concerns(op: Op, key: Key) {
    op.Reset? || op.key == key
  }

  /** What a call does to the queue of its own key. */
  function QueueStep(config: Config, queue: seq<Time>, op: Op): (seq<Time>, bool) {
    var pruned := Prune(queue, op.now - config.window);
    match op
    case Hit(_, now) => if |pruned| >= config.maxEvents then (pruned, true) else (pruned + [now], false)
    case IsLimited(_, _) => (pruned, |pruned| >= config.maxEvents)
    case Record(_, now) => (pruned + [now], false)
    case Reset(_) => ([], false)
  }

  /** Forgetting the keys whose queue is empty changes no queue. */
  lemma PurgeKeeps(queues: Queues)
    ensures forall key :: QueueOf(Purged(queues), key) == QueueOf(queues, key)
  {
  }

  /** A call looks at the queue of its own key alone, and changes no other. */
  lemma StepIsPerKey(config: Config, queues: Queues, op: Op, key: Key)
    ensures Concerns(op, key) ==>
              (QueueOf(Step(config, queues, op).0, key), Step(config, queues, op).1) == QueueStep(config, QueueOf(queues, key), op)
    ensures !Concerns(op, key) ==> QueueOf(Step(config, queues, op).0, key) == QueueOf(queues, key)
  {
    hide Prune, Purged;
    if op.Record? {
      var pruned := Pruned(queues, op.key, op.now - config.window);
      PurgeKeeps(pruned[op.key := pruned[op.key] + [op.now]]);
    }
  }

  /** What a call adds to the history of its own key, and how it judges it. */
  function HistoryStep(config: Config, times: seq<Time>, op: Op): (seq<Time>, bool) {
    var full := |InWindow(times, op.now - config.window)| >= config.maxEvents;
    match op
    case Hit(_, now) => if full then (times, true) else (times + [now], false)
    case IsLimited(_, _) => (times, full)
    case Record(_, now) => (times + [now], false)
    case Reset(_) => ([], false)
  }

  lemma ReferenceLeavesOthers(config: Config, history: seq<Event>, op: Op, key: Key)
    requires !Concerns(op, key)
    ensures TimesOf(Reference(config, history, op).0, key) == TimesOf(history, key)
  {
    TimesOfAfter(history, Event(op.key, op.now), key);
    hide TimesOf, Count;
  }

  lemma ReferenceOfOwn(config: Config, history: seq<Event>, op: Op)
    requires !op.Reset?
    ensures (TimesOf(Reference(config, history, op).0, op.key), Reference(config, history, op).1)
            == HistoryStep(config, TimesOf(history, op.key), op)
  {
    var key, since := op.key, op.now - config.window;
    TimesOfAfter(history, Event(key, op.now), key);
    var full := Count(history, key, since) >= config.maxEvents;
    hide TimesOf, InWindow;
    assert After(history, Event(key, op.now)) == history + [Event(key, op.now)];
    match op
    case Hit(_, _) =>
      assert Reference(config, history, op) == if full then (history, true) else (history + [Event(key, op.now)], false);
    case IsLimited(_, _) =>
      assert Reference(config, history, op) == (history, full);
    case Record(_, _) =>
      assert Reference(config, history, op) == (history + [Event(key, op.now)], false);
  }

  /** So does the limiter that forgets nothing. */
  lemma ReferenceIsPerKey(config: Config, history: seq<Event>, op: Op, key: Key)
    ensures Concerns(op, key) ==>
              (TimesOf(Reference(config, history, op).0, key), Reference(config, history, op).1)
              == HistoryStep(config, TimesOf(history, key), op)
    ensures !Concerns(op, key) ==> TimesOf(Reference(config, history, op).0, key) == TimesOf(history, key)
  {
    if op.Reset? {
      hide InWindow;
      assert TimesOf([], key) == [];
    } else {
      hide Reference, HistoryStep, TimesOf;
      if op.key == key {
        ReferenceOfOwn(config, history, op);
      } else {
        ReferenceLeavesOthers(config, history, op, key);
      }
    }
  }

  // ---------------------------------------------------------------- whole runs

  function Run(config: Config, ops: seq<Op>): (r: (Queues, seq<bool>))
    ensures |r.1| == |ops|
  {
    if ops == [] then (map[], [])
    else
      var (queues, verdicts) := Run(config, ops[..|ops| - 1]);
      var (after, verdict) := Step(config, queues, ops[|ops| - 1]);
      (after, verdicts + [verdict])
  }

  function RunReference(config: Config, ops: seq<Op>): (r: (seq<Event>, seq<bool>))
    ensures |r.1| == |ops|
  {
    if ops == [] then ([], [])
    else
      var (history, verdicts) := RunReference(config, ops[..|ops| - 1]);
      var (after, verdict) := Reference(config, history, ops[|ops| - 1]);
      (after, verdicts + [verdict])
  }

  predicate IsCallFor(op: Op, key: Key) {
    !op.Reset? && op.key == key
  }

  function OnlyFor(ops: seq<Op>, key: Key): seq<Op> {
    if ops == [] then []
    else
      var last := ops[|ops| - 1];
      OnlyFor(ops[..|ops| - 1], key) + if Concerns(last, key) then [last] else []
  }

  lemma RunNext(config: Config, ops: seq<Op>, op: Op)
    ensures var (queues, verdicts) := Run(config, ops);
            Run(config, ops + [op]) == (Step(config, queues, op).0, verdicts + [Step(config, queues, op).1])
  {
    hide Step;
    assert (ops + [op])[..|ops|] == ops;
  }

  lemma RunReferenceNext(config: Config, ops: seq<Op>, op: Op)
    ensures var (history, verdicts) := RunReference(config, ops);
            RunReference(config, ops + [op]) == (Reference(config, history, op).0, verdicts + [Reference(config, history, op).1])
  {
    hide Reference;
    assert (ops + [op])[..|ops|] == ops;
  }

  lemma OnlyForNext(ops: seq<Op>, op: Op, key: Key)
    ensures OnlyFor(ops + [op], key) == OnlyFor(ops, key) + if Concerns(op, key) then [op] else []
  {
    assert (ops + [op])[..|ops|] == ops;
  }

  /** Calls on other keys never affect a key, whatever their clocks: leaving them out of the run
      changes neither its queue nor the verdict of its next call. */
  lemma {:induction false} OtherKeysDoNotMatter(config: Config, ops: seq<Op>, key: Key, next: Op)
    requires Concerns(next, key)
    ensures var all, own := Run(config, ops).0, Run(config, OnlyFor(ops, key)).0;
            && QueueOf(all, key) == QueueOf(own, key)
            && Step(config, all, next).1 == Step(config, own, next).1
  {
    hide Step, QueueStep;
    if ops != [] {
      var first, last := ops[..|ops| - 1], ops[|ops| - 1];
      OtherKeysDoNotMatter(config, first, key, next);
      assert ops == first + [last];
      OnlyForNext(first, last, key);
      StepIsPerKey(config, Run(config, first).0, last, key);
      if Concerns(last, key) {
        RunNext(config, OnlyFor(first, key), last);
        StepIsPerKey(config, Run(config, OnlyFor(first, key)).0, last, key);
      } else {
        assert OnlyFor(first, key) + [] == OnlyFor(first, key);
      }
    }
    StepIsPerKey(config, Run(config, ops).0, next, key);
    StepIsPerKey(config, Run(config, OnlyFor(ops, key)).0, next, key);
  }

  // ---------------------------------------------------------------- as the service runs it

  /** One limiter of the process; every method runs under its lock, at the time it was given. */
  class SlidingWindowLimiter {
    const config: Config
    var events: Queues

    constructor (maxEvents: int, window: Time)
      ensures config == Config(maxEvents, window) && events == map[]
    {
      config := Config(maxEvents, window);
      events := map[];
    }

    /** Makes sure the key has a queue and pops its old events, one by one. */
    method PruneKey(key: Key, now: Time)
      modifies this
      ensures events == Pruned(old(events), key, now - config.window)
    {
      if key !in events {
        events := events[key := []];
      }
      var cutoff := now - config.window;
      while events[key] != [] && events[key][0] < cutoff
        invariant key in events && events == old(events)[key := events[key]]
        invariant Prune(events[key], cutoff) == Prune(QueueOf(old(events), key), cutoff)
        decreases |events[key]|
      {
        events := events[key := events[key][1..]];
      }
    }

    method Hit(key: Key, now: Time) returns (limited: bool)
      modifies this
      ensures (events, limited) == Step(config, old(events), Op.Hit(key, now))
    {
      PruneKey(key, now);
      if |events[key]| >= config.maxEvents {
        return true;
      }
      events := events[key := events[key] + [now]];
      return false;
    }

    method IsLimited(key: Key, now: Time) returns (limited: bool)
      modifies this
      ensures (events, limited) == Step(config, old(events), Op.IsLimited(key, now))
    {
      PruneKey(key, now);
      return |events[key]| >= config.maxEvents;
    }

    method Record(key: Key, now: Time)
      modifies this
      ensures events == Step(config, old(events), Op.Record(key, now)).0
    {
      PruneKey(key, now);
      events := events[key := events[key] + [now]];
      if |events| > MAX_KEYS {
        events := map k <- events | events[k] != [] :: events[k];
      }
    }

    method Reset(now: Time)
      modifies this
      ensures events == Step(config, old(events), Op.Reset(now)).0
    {
      events := map[];
    }
  }
}
