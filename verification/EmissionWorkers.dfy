/**
 Many workers emitting at once. Each takes folios one commit at a time, decides an outcome and
 records it folio by folio, in any interleaving with the others and with the operators who load
 and retire CAFs. A worker may die at any step.
 */
module EmissionWorkers {
  import opened Wrappers
  import opened FolioStore
  import opened FolioHistory

  datatype Worker =
    | Taking(taken: seq<FolioKey>)
    | Recording(taken: seq<FolioKey>, done: nat, outcome: Status)
    | Settled(taken: seq<FolioKey>, outcome: Status)

  datatype System = System(db: Db, workers: map<int, Worker>)

  datatype Action =
    | Begin(worker: int)
    | TakeNext(worker: int, account: Account, today: Date, requestId: string)
    | UseReserved(worker: int, key: FolioKey)
    | Decide(worker: int, outcome: Status)
    | Record(worker: int)
    | Die(worker: int)
    | Operate(event: Event)

  predicate IsTaking(s: System, worker: int) {
    worker in s.workers && s.workers[worker].Taking?
  }

  /** What a worker or an operator does in one transaction; a step that does not apply to the
      worker's state changes nothing. */
  function Act(s: System, action: Action): System {
    match action
    case Begin(w) =>
      if w in s.workers then s else s.(workers := s.workers[w := Taking([])])
    case TakeNext(w, account, today, requestId) =>
      if !IsTaking(s, w) then s
      else
        var (after, r) := NextFolio(s.db, account, today, requestId);
        if r.Err? then s.(db := after)
        else System(after, s.workers[w := Taking(s.workers[w].taken + [FolioKey(account, r.value.folio)])])
    case UseReserved(w, key) =>
      if !IsTaking(s, w) || CafForReserved(s.db, key).Err? then s
      else s.(workers := s.workers[w := Taking(s.workers[w].taken + [key])])
    case Decide(w, outcome) =>
      if !IsTaking(s, w) || outcome == Assigned then s
      else s.(workers := s.workers[w := Recording(s.workers[w].taken, 0, outcome)])
    case Record(w) =>
      if w !in s.workers || !s.workers[w].Recording? then s
      else
        var worker := s.workers[w];
        if worker.done >= |worker.taken| then s.(workers := s.workers[w := Settled(worker.taken, worker.outcome)])
        else System(MarkAssignment(s.db, worker.taken[worker.done], worker.outcome),
                    s.workers[w := worker.(done := worker.done + 1)])
    case Die(w) =>
      s.(workers := s.workers - {w})
    case Operate(event) =>
      if event.Mark? then s else s.(db := Step(s.db, event).0)
  }

  function ActAll(s: System, actions: seq<Action>): System {
    if actions == [] then s else Act(ActAll(s, actions[..|actions| - 1]), actions[|actions| - 1])
  }

  // ---------------------------------------------------------------- the invariant

  predicate Holds(worker: Worker, key: FolioKey) {
    key in worker.taken
  }

  function Expected(worker: Worker, i: nat): Status {
    match worker
    case Taking(_) => Assigned
    case Recording(_, done, outcome) => if i < done then outcome else Assigned
    case Settled(_, outcome) => outcome
  }

  /** The folios of a worker are distinct, delivered, and have the outcomes it has recorded. */
  ghost predicate WorkerOk(db: Db, worker: Worker) {
    && (forall i, j :: 0 <= i < j < |worker.taken| ==> worker.taken[i] != worker.taken[j])
    && (forall i :: 0 <= i < |worker.taken| ==>
          worker.taken[i] in db.assignments && db.assignments[worker.taken[i]].status == Expected(worker, i))
    && (worker.Recording? ==> worker.done <= |worker.taken|)
    && (!worker.Taking? ==> worker.outcome != Assigned)
  }

  /** No folio is in the hands of two workers. */
  ghost predicate Apart(s: System) {
    forall v, w, key :: v in s.workers && w in s.workers && v != w && Holds(s.workers[v], key) ==> !Holds(s.workers[w], key)
  }

  ghost predicate Inv(s: System) {
    && Sound(s.db)
    && (forall w <- s.workers :: WorkerOk(s.db, s.workers[w]))
    && Apart(s)
  }

  /** A reserved folio is used by one emission at a time. The lookup neither locks nor claims the
      row, so this is what callers must guarantee. */
  ghost predicate Exclusive(s: System, action: Action) {
    action.UseReserved? && IsTaking(s, action.worker) && CafForReserved(s.db, action.key).Ok? ==>
      forall v <- s.workers :: !Holds(s.workers[v], action.key)
  }

  ghost predicate AllExclusive(s: System, actions: seq<Action>) {
    forall n :: 0 <= n < |actions| ==> Exclusive(ActAll(s, actions[..n]), actions[n])
  }

  /** The worker's folios keep their outcomes when none of them is touched. */
  lemma WorkerOkElsewhere(db: Db, after: Db, worker: Worker)
    requires WorkerOk(db, worker)
    requires forall key :: Holds(worker, key) && key in db.assignments ==>
               key in after.assignments && after.assignments[key] == db.assignments[key]
    ensures WorkerOk(after, worker)
  {
    forall i | 0 <= i < |worker.taken|
      ensures worker.taken[i] in after.assignments && after.assignments[worker.taken[i]].status == Expected(worker, i)
    {
      assert Holds(worker, worker.taken[i]);
    }
  }

  lemma TakeNextKeepsInv(s: System, w: int, account: Account, today: Date, requestId: string)
    requires Inv(s)
    ensures Inv(Act(s, TakeNext(w, account, today, requestId)))
  {
    hide NextFolio, Sound;
    TakeKeepsSound(s.db, account, today, requestId);
    if IsTaking(s, w) {
      var (db, r) := NextFolio(s.db, account, today, requestId);
      var after := Act(s, TakeNext(w, account, today, requestId));
      forall v | v in s.workers ensures WorkerOk(db, s.workers[v]) {
        WorkerOkElsewhere(s.db, db, s.workers[v]);
      }
      if r.Ok? {
        var key := FolioKey(account, r.value.folio);
        forall v | v in s.workers ensures !Holds(s.workers[v], key) {
          assert WorkerOk(s.db, s.workers[v]);
        }
        assert after.workers[w].taken == s.workers[w].taken + [key];
        assert forall k :: Holds(after.workers[w], k) <==> Holds(s.workers[w], k) || k == key;
      }
    }
  }

  lemma UseReservedKeepsInv(s: System, w: int, key: FolioKey)
    requires Inv(s) && Exclusive(s, UseReserved(w, key))
    ensures Inv(Act(s, UseReserved(w, key)))
  {
    hide Sound, CafForReserved;
    var after := Act(s, UseReserved(w, key));
    if IsTaking(s, w) && CafForReserved(s.db, key).Ok? {
      ReservedExactly(s.db, key);
      assert after.workers[w].taken == s.workers[w].taken + [key];
      assert WorkerOk(s.db, s.workers[w]);
      assert WorkerOk(s.db, after.workers[w]);
      hide WorkerOk;
      assert forall k :: Holds(after.workers[w], k) <==> Holds(s.workers[w], k) || k == key;
    }
  }

  lemma DecideKeepsInv(s: System, w: int, outcome: Status)
    requires Inv(s)
    ensures Inv(Act(s, Decide(w, outcome)))
  {
    hide Sound;
    if IsTaking(s, w) {
      assert WorkerOk(s.db, s.workers[w]);
    }
    assert forall v <- s.workers, k :: Holds(Act(s, Decide(w, outcome)).workers[v], k) <==> Holds(s.workers[v], k);
  }

  lemma RecordKeepsInv(s: System, w: int)
    requires Inv(s)
    ensures Inv(Act(s, Record(w)))
  {
    hide Sound;
    var after := Act(s, Record(w));
    if w in s.workers && s.workers[w].Recording? {
      var worker := s.workers[w];
      assert WorkerOk(s.db, worker);
      assert forall v <- s.workers, k :: Holds(after.workers[v], k) <==> Holds(s.workers[v], k);
      if worker.done < |worker.taken| {
        var key := worker.taken[worker.done];
        MarkKeepsSound(s.db, key, worker.outcome);
        assert Holds(worker, key);
        forall v | v in s.workers && v != w ensures WorkerOk(after.db, s.workers[v]) {
          WorkerOkElsewhere(s.db, after.db, s.workers[v]);
        }
      }
    }
  }

  lemma OperateKeepsInv(s: System, event: Event)
    requires Inv(s)
    ensures Inv(Act(s, Operate(event)))
  {
    hide Sound, Step;
    if !event.Mark? {
      StepKeepsSound(s.db, event);
      var db := Step(s.db, event).0;
      forall w | w in s.workers ensures WorkerOk(db, s.workers[w]) {
        forall key | Holds(s.workers[w], key) && key in s.db.assignments
          ensures key in db.assignments && db.assignments[key] == s.db.assignments[key]
        {
          StepKeepsReservation(s.db, event, key);
        }
        WorkerOkElsewhere(s.db, db, s.workers[w]);
      }
    }
  }

  lemma ActKeepsInv(s: System, action: Action)
    requires Inv(s) && Exclusive(s, action)
    ensures Inv(Act(s, action))
  {
    match action
    case TakeNext(w, account, today, requestId) => TakeNextKeepsInv(s, w, account, today, requestId);
    case UseReserved(w, key) => UseReservedKeepsInv(s, w, key);
    case Record(w) => RecordKeepsInv(s, w);
    case Operate(event) => OperateKeepsInv(s, event);
    case Begin(w) =>
      hide Sound;
    case Decide(w, outcome) => DecideKeepsInv(s, w, outcome);
    case Die(w) =>
      hide Sound;
  }

  lemma SharedReservationBreaksInv(s: System, action: Action)
    requires Inv(s) && !Exclusive(s, action)
    ensures !Inv(Act(s, action))
  {
    var w, key := action.worker, action.key;
    var v :| v in s.workers && Holds(s.workers[v], key);
    var after := Act(s, action);
    var taken := s.workers[w].taken;
    hide Sound, CafForReserved, Exclusive;
    assert after.workers[w] == Taking(taken + [key]);
    assert (taken + [key])[|taken|] == key;
    if v == w {
      var i :| 0 <= i < |taken| && taken[i] == key;
      assert after.workers[w].taken[i] == after.workers[w].taken[|taken|];
      assert !WorkerOk(after.db, after.workers[w]);
    } else {
      assert Holds(after.workers[v], key) && Holds(after.workers[w], key);
      assert !Apart(after);
    }
  }

  /** A step keeps the invariant exactly when it does not put a reserved folio in a second hand. */
  lemma StepsKeepInvExactly(s: System, action: Action)
    requires Inv(s)
    ensures Inv(Act(s, action)) <==> Exclusive(s, action)
  {
    hide Inv, Exclusive, Act;
    if Exclusive(s, action) {
      ActKeepsInv(s, action);
    } else {
      SharedReservationBreaksInv(s, action);
    }
  }

  ghost predicate AlwaysInv(s: System, actions: seq<Action>) {
    forall n :: 0 <= n <= |actions| ==> Inv(ActAll(s, actions[..n]))
  }

  lemma NextStep(s: System, actions: seq<Action>, n: nat)
    requires n < |actions|
    ensures ActAll(s, actions[..n + 1]) == Act(ActAll(s, actions[..n]), actions[n])
  {
    assert actions[..n + 1][..n] == actions[..n];
    hide Act;
  }

  lemma {:induction false} ExclusiveKeepsInv(s: System, actions: seq<Action>, n: nat)
    requires Inv(s) && AllExclusive(s, actions) && n <= |actions|
    ensures Inv(ActAll(s, actions[..n]))
  {
    hide Act, Inv, Exclusive;
    if n == 0 {
      assert actions[..0] == [];
    } else {
      ExclusiveKeepsInv(s, actions, n - 1);
      NextStep(s, actions, n - 1);
      StepsKeepInvExactly(ActAll(s, actions[..n - 1]), actions[n - 1]);
    }
  }

  /** Over every interleaving, at every moment no folio is in two hands and every folio a worker
      recorded has its outcome, exactly when no reserved folio is used by two emissions at once. */
  lemma EveryInterleavingSettlesExactly(s: System, actions: seq<Action>)
    requires Inv(s)
    ensures AlwaysInv(s, actions) <==> AllExclusive(s, actions)
  {
    hide Act, Inv, Exclusive, ActAll;
    if AllExclusive(s, actions) {
      forall n: nat | n <= |actions| ensures Inv(ActAll(s, actions[..n])) {
        ExclusiveKeepsInv(s, actions, n);
      }
    }
    if AlwaysInv(s, actions) {
      forall n: nat | n < |actions| ensures Exclusive(ActAll(s, actions[..n]), actions[n]) {
        NextStep(s, actions, n);
        StepsKeepInvExactly(ActAll(s, actions[..n]), actions[n]);
      }
    }
  }

  /** What the invariant means for two workers of one interleaving. */
  lemma SettledWorkersAgree(s: System, actions: seq<Action>, v: int, w: int)
    requires Inv(s) && AllExclusive(s, actions)
    requires v in ActAll(s, actions).workers && w in ActAll(s, actions).workers && v != w
    ensures var end := ActAll(s, actions);
            && (forall key :: !(key in end.workers[v].taken && key in end.workers[w].taken))
            && (end.workers[v].Settled? ==>
                  && end.workers[v].outcome != Assigned
                  && forall key <- end.workers[v].taken ::
                       key in end.db.assignments && end.db.assignments[key].status == end.workers[v].outcome)
  {
    assert actions[..|actions|] == actions;
    ExclusiveKeepsInv(s, actions, |actions|);
    var end := ActAll(s, actions);
    assert WorkerOk(end.db, end.workers[v]);
    forall key ensures !(key in end.workers[v].taken && key in end.workers[w].taken) {
      assert Holds(end.workers[v], key) ==> !Holds(end.workers[w], key);
    }
  }

  // ---------------------------------------------------------------- what sharing a folio does

  lemma {:induction false} ActAllConcat(s: System, a: seq<Action>, b: seq<Action>)
    ensures ActAll(s, a + b) == ActAll(ActAll(s, a), b)
  {
    hide Act;
    if b == [] {
      assert a + b == a;
    } else {
      ActAllConcat(s, a, b[..|b| - 1]);
      assert (a + b)[..|a + b| - 1] == a + b[..|b| - 1];
    }
  }

  function Records(worker: int, n: nat): (r: seq<Action>)
    ensures |r| == n && forall i :: 0 <= i < n ==> r[i] == Record(worker)
  {
    seq(n, _ => Record(worker))
  }

  /** Only worker `w` moved, and of the folios only those from `taken[low]` to `taken[high - 1]`,
      which got the outcome. */
  ghost predicate Recorded(s: System, end: System, w: int, taken: seq<FolioKey>, low: nat, high: nat, outcome: Status)
    requires low <= high <= |taken|
  {
    && end.workers.Keys == s.workers.Keys && (forall v <- s.workers :: v != w ==> end.workers[v] == s.workers[v])
    && end.db.assignments.Keys == s.db.assignments.Keys
    && (forall i :: low <= i < high && taken[i] in s.db.assignments ==> end.db.assignments[taken[i]].status == outcome)
  }

  lemma RecordOne(s: System, w: int)
    requires w in s.workers && s.workers[w].Recording? && s.workers[w].done < |s.workers[w].taken|
    ensures var worker, after := s.workers[w], Act(s, Record(w));
            && after.workers == s.workers[w := worker.(done := worker.done + 1)]
            && after.db == MarkAssignment(s.db, worker.taken[worker.done], worker.outcome)
  {
  }

  lemma {:induction false} RecordsRun(s: System, w: int, n: nat)
    requires w in s.workers && s.workers[w].Recording? && s.workers[w].done + n <= |s.workers[w].taken|
    ensures var worker, end := s.workers[w], ActAll(s, Records(w, n));
            && Recorded(s, end, w, worker.taken, worker.done, worker.done + n, worker.outcome)
            && end.workers[w] == worker.(done := worker.done + n)
    decreases n
  {
    if n > 0 {
      RecordsRun(s, w, n - 1);
      var before := ActAll(s, Records(w, n - 1));
      assert Records(w, n)[..n - 1] == Records(w, n - 1) && Records(w, n)[n - 1] == Record(w);
      assert ActAll(s, Records(w, n)) == Act(before, Record(w));
      RecordOne(before, w);
      hide Act, ActAll, Records;
    }
  }

  /** A worker that is recording can finish: all that was left to record gets its outcome. */
  lemma RecordingSettles(s: System, w: int)
    requires w in s.workers && s.workers[w].Recording? && s.workers[w].done <= |s.workers[w].taken|
    ensures var worker := s.workers[w];
            var end := ActAll(s, Records(w, |worker.taken| - worker.done + 1));
            && Recorded(s, end, w, worker.taken, worker.done, |worker.taken|, worker.outcome)
            && end.workers[w] == Settled(worker.taken, worker.outcome)
  {
    var n := |s.workers[w].taken| - s.workers[w].done;
    RecordsRun(s, w, n);
    assert Records(w, n + 1)[..n] == Records(w, n);
  }

  /** A worker that is taking can settle with any outcome. */
  lemma TakingSettles(s: System, w: int, outcome: Status) returns (actions: seq<Action>)
    requires IsTaking(s, w) && outcome != Assigned
    ensures var taken, end := s.workers[w].taken, ActAll(s, actions);
            Recorded(s, end, w, taken, 0, |taken|, outcome) && end.workers[w] == Settled(taken, outcome)
  {
    var one := Act(s, Decide(w, outcome));
    var taken := s.workers[w].taken;
    actions := [Decide(w, outcome)] + Records(w, |taken| + 1);
    ActAllConcat(s, [Decide(w, outcome)], Records(w, |taken| + 1));
    assert [Decide(w, outcome)][..0] == [];
    assert ActAll(s, [Decide(w, outcome)]) == one;
    RecordingSettles(one, w);
  }

  /** The same from wherever the worker stands, for a folio it has not recorded yet. */
  lemma HolderSettles(s: System, v: int, key: FolioKey) returns (actions: seq<Action>, outcome: Status)
    requires v in s.workers && WorkerOk(s.db, s.workers[v]) && Holds(s.workers[v], key)
    requires key in s.db.assignments && s.db.assignments[key].status == Assigned
    ensures var taken, end := s.workers[v].taken, ActAll(s, actions);
            && end.workers.Keys == s.workers.Keys && (forall w <- s.workers :: w != v ==> end.workers[w] == s.workers[w])
            && end.db.assignments.Keys == s.db.assignments.Keys
            && end.workers[v] == Settled(taken, outcome) && end.db.assignments[key].status == outcome
  {
    var worker := s.workers[v];
    var i :| 0 <= i < |worker.taken| && worker.taken[i] == key;
    assert Expected(worker, i) == Assigned;
    if worker.Taking? {
      outcome := Issued;
      actions := TakingSettles(s, v, Issued);
    } else {
      outcome := worker.outcome;
      actions := Records(v, |worker.taken| - worker.done + 1);
      RecordingSettles(s, v);
    }
  }

  /** Whenever an emission uses a reserved folio another still holds, wherever both stand and
      whatever else they hold, there is a way to go on in which the first settles it with its
      outcome and the second overwrites that with another. */
  lemma SharedReservationOverwrites(s: System, v: int, w: int, key: FolioKey) returns (actions: seq<Action>)
    requires Inv(s) && v != w && v in s.workers && Holds(s.workers[v], key)
    requires IsTaking(s, w) && CafForReserved(s.db, key).Ok?
    ensures !AllExclusive(s, actions)
    ensures var end := ActAll(s, actions);
            && v in end.workers && end.workers[v].Settled? && key in end.workers[v].taken
            && key in end.db.assignments && end.db.assignments[key].status != end.workers[v].outcome
  {
    ReservedExactly(s.db, key);
    var s1 := Act(s, UseReserved(w, key));
    var taken := s.workers[w].taken + [key];
    assert s1.workers[w] == Taking(taken) && s1.db == s.db && taken[|taken| - 1] == key;
    assert WorkerOk(s1.db, s1.workers[v]) && Holds(s1.workers[v], key);
    hide Inv, CafForReserved;
    var first, outcome := HolderSettles(s1, v, key);
    var s2 := ActAll(s1, first);
    var second := TakingSettles(s2, w, if outcome == Issued then Failed else Issued);
    var use := [UseReserved(w, key)];
    actions := use + (first + second);
    assert !AllExclusive(s, actions) by {
      assert actions[..0] == [] && actions[0] == UseReserved(w, key);
      assert !Exclusive(ActAll(s, actions[..0]), actions[0]);
    }
    assert use[..0] == [] && ActAll(s, use) == s1;
    hide Act, AllExclusive;
    ActAllConcat(s, use, first + second);
    ActAllConcat(s1, first, second);
    assert ActAll(s, actions) == ActAll(s2, second);
  }
}
