/**
 What one worker and one call come to when nothing comes in between: the worker's steps leave what the
 ending of a batch says, and the call's leave what the run of its request does.
 */
module EmissionAlone {
  import opened Wrappers
  import opened FolioStore
  import opened FolioHistory
  import E = EmissionEndings
  import W = EmissionWorkers
  import C = EmissionCalls
  import P = IdempotencyProtocol
  import R = EmissionRecords
  import opened EmissionEndToEnd

  // ---------------------------------------------------------------- one worker

  /** The allocations a worker tries for a batch: one for each document, up to the first in vain. */
  function Takes(w: int, customer: int, docTypes: seq<int>, today: Date, requestId: string, n: nat): (r: seq<W.Action>)
    requires n <= |docTypes|
    ensures |r| == n && forall i :: 0 <= i < n ==> r[i] == W.TakeNext(w, Account(customer, docTypes[i]), today, requestId)
  {
    seq(n, i requires 0 <= i < n => W.TakeNext(w, Account(customer, docTypes[i]), today, requestId))
  }

  function Tries(db: Db, customer: int, docTypes: seq<int>, today: Date, requestId: string): (n: nat)
    ensures n <= |docTypes|
  {
    var a := E.AllocateAll(db, customer, docTypes, today, requestId);
    if |a.keys| < |docTypes| then |a.keys| + 1 else |docTypes|
  }

  lemma NextAct(s: W.System, actions: seq<W.Action>, action: W.Action)
    ensures W.ActAll(s, actions + [action]) == W.Act(W.ActAll(s, actions), action)
  {
    hide W.Act;
    assert (actions + [action])[..|actions|] == actions;
  }

  lemma AllocationCounts(db: Db, customer: int, docTypes: seq<int>, today: Date, requestId: string)
    ensures var a := E.AllocateAll(db, customer, docTypes, today, requestId);
            |a.keys| <= |docTypes| && (a.ok <==> |a.keys| == |docTypes|)
  {
    E.AllocationIsARun(db, customer, docTypes, today, requestId);
  }

  lemma AllocatesOneMore(db: Db, customer: int, docTypes: seq<int>, today: Date, requestId: string)
    requires docTypes != []
    ensures var n, a := |docTypes| - 1, E.AllocateAll(db, customer, docTypes, today, requestId);
            var before := E.AllocateAll(db, customer, docTypes[..n], today, requestId);
            var (after, r) := NextFolio(before.db, Account(customer, docTypes[n]), today, requestId);
            a == if !before.ok then before
                 else if r.Ok? then E.Allocation(after, before.keys + [FolioKey(Account(customer, docTypes[n]), r.value.folio)], true)
                 else E.Allocation(after, before.keys, false)
  {
    hide NextFolio;
  }

  lemma TakesOneMore(s: W.System, w: int, account: Account, today: Date, requestId: string)
    requires W.IsTaking(s, w)
    ensures var (after, r) := NextFolio(s.db, account, today, requestId);
            W.Act(s, W.TakeNext(w, account, today, requestId)) ==
            W.System(after, s.workers[w := W.Taking(s.workers[w].taken + if r.Ok? then [FolioKey(account, r.value.folio)] else [])])
  {
    var taken := s.workers[w].taken;
    var (after, r) := NextFolio(s.db, account, today, requestId);
    hide NextFolio;
    assert taken + [] == taken && s.workers[w := W.Taking(taken)] == s.workers;
  }

  lemma TakesOfAll(
      s: W.System, w: int, customer: int, docTypes: seq<int>, today: Date, requestId: string, before: E.Allocation)
    requires w in s.workers && docTypes != [] && before.ok
    requires before == E.AllocateAll(s.db, customer, docTypes[..|docTypes| - 1], today, requestId)
    requires W.ActAll(s, Takes(w, customer, docTypes[..|docTypes| - 1], today, requestId, |docTypes| - 1))
          == W.System(before.db, s.workers[w := W.Taking(before.keys)])
    ensures var a := E.AllocateAll(s.db, customer, docTypes, today, requestId);
            W.ActAll(s, Takes(w, customer, docTypes, today, requestId, |docTypes|)) == W.System(a.db, s.workers[w := W.Taking(a.keys)])
  {
    hide *;
    var start, n := docTypes[..|docTypes| - 1], |docTypes| - 1;
    var takes, account := Takes(w, customer, start, today, requestId, n), Account(customer, docTypes[n]);
    AllocatesOneMore(s.db, customer, docTypes, today, requestId);
    TakesEndWith(w, customer, docTypes, today, requestId);
    NextAct(s, takes, W.TakeNext(w, account, today, requestId));
    TakesOneMoreAfter(s, w, before.db, before.keys, account, today, requestId);
    assert before.keys + [] == before.keys;
  }

  lemma TakesOneMoreAfter(
      s: W.System, w: int, db: Db, keys: seq<FolioKey>, account: Account, today: Date, requestId: string)
    requires w in s.workers
    ensures var (after, r) := NextFolio(db, account, today, requestId);
            W.Act(W.System(db, s.workers[w := W.Taking(keys)]), W.TakeNext(w, account, today, requestId)) ==
            W.System(after, s.workers[w := W.Taking(keys + if r.Ok? then [FolioKey(account, r.value.folio)] else [])])
  {
    hide *;
    var middle := W.System(db, s.workers[w := W.Taking(keys)]);
    TakingIs(middle, w);
    TakesOneMore(middle, w, account, today, requestId);
    var (_, r) := NextFolio(db, account, today, requestId);
    var more := keys + if r.Ok? then [FolioKey(account, r.value.folio)] else [];
    assert s.workers[w := W.Taking(keys)][w := W.Taking(more)] == s.workers[w := W.Taking(more)];
  }

  lemma TakingIs(s: W.System, w: int)
    requires w in s.workers && s.workers[w].Taking?
    ensures W.IsTaking(s, w)
  {
  }

  lemma TakesEndWith(w: int, customer: int, docTypes: seq<int>, today: Date, requestId: string)
    requires docTypes != []
    ensures var n := |docTypes| - 1;
            Takes(w, customer, docTypes, today, requestId, n + 1) ==
            Takes(w, customer, docTypes[..n], today, requestId, n) + [W.TakeNext(w, Account(customer, docTypes[n]), today, requestId)]
  {
  }

  lemma {:induction false} TakesAllocate(
      s: W.System, w: int, customer: int, docTypes: seq<int>, today: Date, requestId: string)
    requires w in s.workers && s.workers[w] == W.Taking([])
    ensures var a := E.AllocateAll(s.db, customer, docTypes, today, requestId);
            W.ActAll(s, Takes(w, customer, docTypes, today, requestId, Tries(s.db, customer, docTypes, today, requestId)))
            == W.System(a.db, s.workers[w := W.Taking(a.keys)])
  {
    if docTypes == [] {
      assert s.workers[w := W.Taking([])] == s.workers;
    } else {
      var start, n := docTypes[..|docTypes| - 1], |docTypes| - 1;
      TakesAllocate(s, w, customer, start, today, requestId);
      AllocationCounts(s.db, customer, docTypes, today, requestId);
      AllocationCounts(s.db, customer, start, today, requestId);
      var before := E.AllocateAll(s.db, customer, start, today, requestId);
      hide NextFolio, W.ActAll, W.Act;
      assert !before.ok ==> E.AllocateAll(s.db, customer, docTypes, today, requestId) == before;
      hide E.AllocateAll;
      if before.ok {
        TakesOfAll(s, w, customer, docTypes, today, requestId, before);
      } else {
        var m := Tries(s.db, customer, start, today, requestId);
        assert Takes(w, customer, docTypes, today, requestId, m) == Takes(w, customer, start, today, requestId, m);
      }
    }
  }

  lemma {:induction false} RecordsMark(s: W.System, w: int, n: nat)
    requires w in s.workers && s.workers[w].Recording? && s.workers[w].done == 0 && n <= |s.workers[w].taken|
    ensures var worker := s.workers[w];
            W.ActAll(s, W.Records(w, n)) ==
            W.System(E.MarkAll(s.db, worker.taken[..n], worker.outcome), s.workers[w := worker.(done := n)])
  {
    if n > 0 {
      RecordsMark(s, w, n - 1);
      var taken := s.workers[w].taken;
      assert W.Records(w, n) == W.Records(w, n - 1) + [W.Record(w)];
      NextAct(s, W.Records(w, n - 1), W.Record(w));
      hide W.ActAll, MarkAssignment;
      assert taken[..n][..n - 1] == taken[..n - 1] && taken[..n][n - 1] == taken[n - 1];
    } else {
      assert W.Records(w, 0) == [] && s.workers[w].taken[..0] == [];
      assert s.workers[w := s.workers[w]] == s.workers;
    }
  }

  /** The steps of a worker that emits one batch by itself. */
  function Emitting(
      w: int, db: Db, customer: int, documents: seq<E.Document>, send: bool, outside: E.Outside, today: Date, requestId: string)
    : seq<W.Action>
  {
    var e, docTypes := E.BatchEnding(db, customer, documents, send, outside, today, requestId), E.DocTypes(documents);
    [W.Begin(w)]
    + Takes(w, customer, docTypes, today, requestId, Tries(db, customer, docTypes, today, requestId))
    + ([W.Decide(w, E.Outcome(e))] + W.Records(w, |e.taken| + 1))
  }

  lemma OneAct(s: W.System, action: W.Action)
    ensures W.ActAll(s, [action]) == W.Act(s, action)
  {
    hide W.Act;
    assert [action][..0] == [];
  }

  lemma DecidesAndRecords(s: W.System, w: int, outcome: Status)
    requires W.IsTaking(s, w) && outcome != Assigned
    ensures var taken := s.workers[w].taken;
            W.ActAll(s, [W.Decide(w, outcome)] + W.Records(w, |taken| + 1)) ==
            W.System(E.MarkAll(s.db, taken, outcome), s.workers[w := W.Settled(taken, outcome)])
  {
    var taken := s.workers[w].taken;
    var decided := W.Act(s, W.Decide(w, outcome));
    W.ActAllConcat(s, [W.Decide(w, outcome)], W.Records(w, |taken| + 1));
    OneAct(s, W.Decide(w, outcome));
    RecordsMark(decided, w, |taken|);
    assert W.Records(w, |taken| + 1) == W.Records(w, |taken|) + [W.Record(w)] && taken[..|taken|] == taken;
    NextAct(decided, W.Records(w, |taken|), W.Record(w));
    hide W.ActAll, E.MarkAll;
  }

  lemma TakenAsAllocated(
      db: Db, customer: int, documents: seq<E.Document>, send: bool, outside: E.Outside, today: Date, requestId: string)
    requires E.AllAcceptable(documents)
    ensures var a, e := E.AllocateAll(db, customer, E.DocTypes(documents), today, requestId),
                        E.BatchEnding(db, customer, documents, send, outside, today, requestId);
            e.taken == a.keys && e.db == E.MarkAll(a.db, a.keys, E.Outcome(e)) && E.Outcome(e) != Assigned
  {
    hide E.AllocateAll, E.MarkAll, E.NeverSent, E.AllAcceptable, E.AnyDangling;
  }

  /** Alone, a worker that takes the folios of an acceptable batch, decides and records one outcome ends
      with the tables, the folios and the outcome of that batch; the other workers stay as they were. */
  lemma WorkerAloneIsTheBatch(
      s: W.System, w: int, customer: int, documents: seq<E.Document>, send: bool, outside: E.Outside, today: Date, requestId: string)
    requires w !in s.workers && E.AllAcceptable(documents)
    ensures var e := E.BatchEnding(s.db, customer, documents, send, outside, today, requestId);
            W.ActAll(s, Emitting(w, s.db, customer, documents, send, outside, today, requestId))
            == W.System(e.db, s.workers[w := W.Settled(e.taken, E.Outcome(e))])
  {
    hide *;
    var docTypes, e := E.DocTypes(documents), E.BatchEnding(s.db, customer, documents, send, outside, today, requestId);
    var a := E.AllocateAll(s.db, customer, docTypes, today, requestId);
    var takes := Takes(w, customer, docTypes, today, requestId, Tries(s.db, customer, docTypes, today, requestId));
    EmittingIs(w, s.db, customer, documents, send, outside, today, requestId);
    TakenAsAllocated(s.db, customer, documents, send, outside, today, requestId);
    WorkerTakes(s, w, customer, docTypes, today, requestId);
    W.ActAllConcat(s, [W.Begin(w)] + takes, [W.Decide(w, E.Outcome(e))] + W.Records(w, |a.keys| + 1));
    EndsWith(s, w, a.db, a.keys, E.Outcome(e));
  }

  lemma WorkerTakes(s: W.System, w: int, customer: int, docTypes: seq<int>, today: Date, requestId: string)
    requires w !in s.workers
    ensures var a := E.AllocateAll(s.db, customer, docTypes, today, requestId);
            W.ActAll(s, [W.Begin(w)] + Takes(w, customer, docTypes, today, requestId, Tries(s.db, customer, docTypes, today, requestId)))
            == W.System(a.db, s.workers[w := W.Taking([])][w := W.Taking(a.keys)])
  {
    hide *;
    Begins(s, w);
    W.ActAllConcat(s, [W.Begin(w)], Takes(w, customer, docTypes, today, requestId, Tries(s.db, customer, docTypes, today, requestId)));
    TakesAllocate(W.System(s.db, s.workers[w := W.Taking([])]), w, customer, docTypes, today, requestId);
  }

  lemma Begins(s: W.System, w: int)
    requires w !in s.workers
    ensures W.ActAll(s, [W.Begin(w)]) == W.System(s.db, s.workers[w := W.Taking([])])
  {
    OneAct(s, W.Begin(w));
  }

  lemma EmittingIs(
      w: int, db: Db, customer: int, documents: seq<E.Document>, send: bool, outside: E.Outside, today: Date, requestId: string)
    ensures var e, docTypes := E.BatchEnding(db, customer, documents, send, outside, today, requestId), E.DocTypes(documents);
            Emitting(w, db, customer, documents, send, outside, today, requestId) ==
            [W.Begin(w)] + Takes(w, customer, docTypes, today, requestId, Tries(db, customer, docTypes, today, requestId))
            + ([W.Decide(w, E.Outcome(e))] + W.Records(w, |e.taken| + 1))
  {
    hide E.BatchEnding, E.Outcome, Takes, Tries, W.Records;
  }

  lemma EndsWith(s: W.System, w: int, db: Db, taken: seq<FolioKey>, outcome: Status)
    requires outcome != Assigned
    ensures W.ActAll(W.System(db, s.workers[w := W.Taking([])][w := W.Taking(taken)]), [W.Decide(w, outcome)] + W.Records(w, |taken| + 1))
         == W.System(E.MarkAll(db, taken, outcome), s.workers[w := W.Settled(taken, outcome)])
  {
    hide *;
    var all := W.System(db, s.workers[w := W.Taking([])][w := W.Taking(taken)]);
    TakingIs(all, w);
    DecidesAndRecords(all, w, outcome);
    assert all.workers[w := W.Settled(taken, outcome)] == s.workers[w := W.Settled(taken, outcome)];
  }

  // ---------------------------------------------------------------- one call

  lemma NextPlay(w: C.World, moves: seq<C.Move>, move: C.Move)
    ensures C.PlayAll(w, moves + [move]) == C.Play(C.PlayAll(w, moves), move)
  {
    hide C.Play;
    assert (moves + [move])[..|moves|] == moves;
  }

  lemma {:induction false} PlayConcat(w: C.World, a: seq<C.Move>, b: seq<C.Move>)
    ensures C.PlayAll(w, a + b) == C.PlayAll(C.PlayAll(w, a), b)
  {
    hide C.Play;
    if b == [] {
      assert a + b == a;
    } else {
      PlayConcat(w, a, b[..|b| - 1]);
      assert (a + b)[..|a + b| - 1] == a + b[..|b| - 1];
    }
  }

  /** The allocations of a call, one for each document. */
  function Allocations(id: int, docTypes: seq<int>, today: Date, requestId: string): (r: seq<C.Move>)
    ensures |r| == |docTypes| && forall i :: 0 <= i < |r| ==> r[i] == C.Allocate(id, docTypes[i], today, requestId)
  {
    seq(|docTypes|, i requires 0 <= i < |docTypes| => C.Allocate(id, docTypes[i], today, requestId))
  }

  /** What a world becomes when some folios are taken for a call. */
  function WithTaken(w: C.World, id: int, db: Db, taken: seq<Taken>): C.World {
    w.(db := db, ledger := w.ledger.(taken := w.ledger.taken + taken, owners := w.ledger.owners + C.Copies(id, |taken|)))
  }

  lemma WithMore(w: C.World, id: int, middle: Db, taken: seq<Taken>, db: Db, more: seq<Taken>)
    ensures WithTaken(WithTaken(w, id, middle, taken), id, db, more) == WithTaken(w, id, db, taken + more)
  {
    assert C.Copies(id, |taken + more|) == C.Copies(id, |taken|) + C.Copies(id, |more|);
    assert w.ledger.owners + (C.Copies(id, |taken|) + C.Copies(id, |more|)) == w.ledger.owners + C.Copies(id, |taken|) + C.Copies(id, |more|);
    assert w.ledger.taken + (taken + more) == w.ledger.taken + taken + more;
  }

  lemma OneAllocationPlayed(w: C.World, id: int, docType: int, today: Date, requestId: string)
    requires P.IsExecuting(w.system, id)
    ensures var (db, more) := Step(w.db, Take(Account(w.system.calls[id].request.customer, docType), today, requestId));
            C.Play(w, C.Allocate(id, docType, today, requestId)) == WithTaken(w, id, db, more)
  {
    hide Step;
  }

  lemma NextAllocation(customer: int, id: int, docTypes: seq<int>, today: Date, requestId: string)
    requires docTypes != []
    ensures var start, last := docTypes[..|docTypes| - 1], docTypes[|docTypes| - 1];
            && Allocations(id, docTypes, today, requestId)
               == Allocations(id, start, today, requestId) + [C.Allocate(id, last, today, requestId)]
            && E.AllocationEvents(customer, docTypes, today, requestId)
               == E.AllocationEvents(customer, start, today, requestId) + [Take(Account(customer, last), today, requestId)]
  {
  }

  lemma NothingAllocated(w: C.World, id: int, today: Date, requestId: string)
    ensures var (db, taken) := Run(w.db, E.AllocationEvents(w.system.calls[id].request.customer, [], today, requestId));
            C.PlayAll(w, Allocations(id, [], today, requestId)) == WithTaken(w, id, db, taken)
    requires id in w.system.calls
  {
    assert w.ledger.taken + [] == w.ledger.taken && w.ledger.owners + [] == w.ledger.owners;
  }

  lemma {:induction false} AllocationsPlayed(w: C.World, id: int, docTypes: seq<int>, today: Date, requestId: string)
    requires P.IsExecuting(w.system, id)
    ensures var (db, taken) := Run(w.db, E.AllocationEvents(w.system.calls[id].request.customer, docTypes, today, requestId));
            C.PlayAll(w, Allocations(id, docTypes, today, requestId)) == WithTaken(w, id, db, taken)
  {
    if docTypes == [] {
      NothingAllocated(w, id, today, requestId);
    } else {
      var start, last := docTypes[..|docTypes| - 1], docTypes[|docTypes| - 1];
      var customer := w.system.calls[id].request.customer;
      AllocationsPlayed(w, id, start, today, requestId);
      NextAllocation(customer, id, docTypes, today, requestId);
      var (middle, taken) := Run(w.db, E.AllocationEvents(customer, start, today, requestId));
      var event := Take(Account(customer, last), today, requestId);
      var (db, more) := Step(middle, event);
      var before := WithTaken(w, id, middle, taken);
      assert before.system == w.system && before.db == middle;
      hide *;
      NextPlay(w, Allocations(id, start, today, requestId), C.Allocate(id, last, today, requestId));
      C.RunNext(w.db, E.AllocationEvents(customer, start, today, requestId), event);
      OneAllocationPlayed(before, id, last, today, requestId);
      WithMore(w, id, middle, taken, db, more);
    }
  }

  lemma {:induction false} HeldGrows(owned: seq<Taken>, owners: seq<int>, id: int, more: seq<Taken>)
    requires |owned| == |owners|
    ensures C.Held(owned + more, owners + C.Copies(id, |more|), id) == C.Held(owned, owners, id) + E.KeysOf(more)
  {
    if more == [] {
      assert owned + more == owned && owners + C.Copies(id, 0) == owners;
    } else {
      var n := |more| - 1;
      HeldGrows(owned, owners, id, more[..n]);
      assert (owned + more)[..|owned| + n] == owned + more[..n];
      assert (owners + C.Copies(id, |more|))[..|owned| + n] == owners + C.Copies(id, n);
      assert E.KeysOf(more) == E.KeysOf(more[..n]) + [more[n].key];
    }
  }

  lemma {:induction false} NothingHeld(owned: seq<Taken>, owners: seq<int>, id: int)
    requires |owned| == |owners| && id !in owners
    ensures C.Held(owned, owners, id) == []
  {
    if owned != [] {
      NothingHeld(owned[..|owned| - 1], owners[..|owned| - 1], id);
    }
  }

  /** What a call does that numbers one document for each type and answers with them all. */
  function CallAndAnswer(
      id: int, request: R.Request, docTypes: seq<int>, today: Date, requestId: string, body: string, xmls: seq<string>): seq<C.Move>
  {
    [C.Protocol(P.Arrive(id, request)), C.Protocol(P.Start(id))]
    + Allocations(id, docTypes, today, requestId)
    + [C.Answer(id, body, xmls), C.Protocol(P.Keep(id)), C.Protocol(P.Finish(id))]
  }

  lemma PlayTwo(w: C.World, a: C.Move, b: C.Move)
    ensures C.PlayAll(w, [a, b]) == C.Play(C.Play(w, a), b)
  {
    NextPlay(w, [], a);
    NextPlay(w, [a], b);
    assert [] + [a] == [a] && [a] + [b] == [a, b];
  }

  lemma PlayThree(w: C.World, a: C.Move, b: C.Move, c: C.Move)
    ensures C.PlayAll(w, [a, b, c]) == C.Play(C.Play(C.Play(w, a), b), c)
  {
    PlayTwo(w, a, b);
    NextPlay(w, [a, b], c);
    assert [a, b] + [c] == [a, b, c];
  }

  /** The steps of a call that returns, one by one. */
  lemma StepsOfReturn(s: P.System, id: int, request: R.Request, response: R.Response)
    ensures P.ActAll(s, [P.Arrive(id, request), P.Start(id)]) == P.Act(P.Act(s, P.Arrive(id, request)), P.Start(id))
    ensures P.ActAll(s, P.CallOf(id, request, R.Returned(response))) ==
            P.Act(P.Act(P.Act(P.ActAll(s, [P.Arrive(id, request), P.Start(id)]), P.Return(id, response)), P.Keep(id)), P.Finish(id))
  {
    var start := [P.Arrive(id, request), P.Start(id)];
    assert [] + [P.Arrive(id, request)] == [P.Arrive(id, request)] && [P.Arrive(id, request)] + [P.Start(id)] == start;
    P.ActAllNext(s, [], P.Arrive(id, request));
    P.ActAllNext(s, [P.Arrive(id, request)], P.Start(id));
    assert P.CallOf(id, request, R.Returned(response)) == start + [P.Return(id, response)] + [P.Keep(id)] + [P.Finish(id)];
    P.ActAllNext(s, start, P.Return(id, response));
    P.ActAllNext(s, start + [P.Return(id, response)], P.Keep(id));
    P.ActAllNext(s, start + [P.Return(id, response)] + [P.Keep(id)], P.Finish(id));
    hide P.Act;
  }

  /** Alone, a call whose key is free and whose documents all get a folio takes the folios that the
      allocator delivers, answers with documents that bear them in order, and leaves the rows that
      the run of its request leaves when it returns those. */
  lemma CallAloneAnswersItsBatch(
      w: C.World, id: int, request: R.Request, docTypes: seq<int>, today: Date, requestId: string, body: string, xmls: seq<string>)
    requires |w.ledger.taken| == |w.ledger.owners| && id !in w.ledger.owners && id !in w.system.calls
    requires request.key == "" || request !in w.system.store.markers
    requires |Run(w.db, E.AllocationEvents(request.customer, docTypes, today, requestId)).1| == |docTypes| == |xmls|
    ensures var (db, taken) := Run(w.db, E.AllocationEvents(request.customer, docTypes, today, requestId));
            var end := C.PlayAll(w, CallAndAnswer(id, request, docTypes, today, requestId, body, xmls));
            var answer := R.Response(body, C.Bearing(E.KeysOf(taken), xmls));
            && end.db == db && end.ledger.taken == w.ledger.taken + taken
            && end.system.store == R.RunAlone(w.system.store, request, R.Returned(answer)).0
  {
    var (db, taken) := Run(w.db, E.AllocationEvents(request.customer, docTypes, today, requestId));
    var answer := R.Response(body, C.Bearing(E.KeysOf(taken), xmls));
    var first, allocations := [C.Protocol(P.Arrive(id, request)), C.Protocol(P.Start(id))], Allocations(id, docTypes, today, requestId);
    var last := [C.Answer(id, body, xmls), C.Protocol(P.Keep(id)), C.Protocol(P.Finish(id))];
    P.StartsAlone(w.system, id, request);
    var started := w.(system := P.ActAll(w.system, [P.Arrive(id, request), P.Start(id)]));
    assert P.IsExecuting(started.system, id) && started.system.calls[id].request == request;
    CallStarts(w, id, request);
    var numbered := WithTaken(started, id, db, taken);
    assert numbered.db == db && numbered.ledger == Ledger(w.ledger.taken + taken, w.ledger.owners + C.Copies(id, |taken|));
    var moves := CallAndAnswer(id, request, docTypes, today, requestId, body, xmls);
    assert moves == first + allocations + last;
    hide *;
    PlayConcat(w, first, allocations);
    PlayConcat(w, first + allocations, last);
    AllocationsPlayed(started, id, docTypes, today, requestId);
    assert C.PlayAll(w, moves) == C.PlayAll(numbered, last);
    HeldGrows(w.ledger.taken, w.ledger.owners, id, taken);
    NothingHeld(w.ledger.taken, w.ledger.owners, id);
    assert [] + E.KeysOf(taken) == E.KeysOf(taken);
    CallEnds(numbered, id, body, xmls, E.KeysOf(taken));
    StepsOfReturn(w.system, id, request, answer);
    P.RunAloneIsTheProtocol(w.system, id, request, R.Returned(answer));
  }

  lemma CallStarts(w: C.World, id: int, request: R.Request)
    ensures C.PlayAll(w, [C.Protocol(P.Arrive(id, request)), C.Protocol(P.Start(id))])
         == w.(system := P.ActAll(w.system, [P.Arrive(id, request), P.Start(id)]))
  {
    PlayTwo(w, C.Protocol(P.Arrive(id, request)), C.Protocol(P.Start(id)));
    StepsOfReturn(w.system, id, request, R.Response("", []));
    hide P.Act, C.PlayAll, P.ActAll;
  }

  lemma CallEnds(w: C.World, id: int, body: string, xmls: seq<string>, keys: seq<FolioKey>)
    requires |w.ledger.taken| == |w.ledger.owners| && C.Held(w.ledger.taken, w.ledger.owners, id) == keys && |keys| == |xmls|
    ensures var answer := R.Response(body, C.Bearing(keys, xmls));
            C.PlayAll(w, [C.Answer(id, body, xmls), C.Protocol(P.Keep(id)), C.Protocol(P.Finish(id))]) ==
            w.(system := P.Act(P.Act(P.Act(w.system, P.Return(id, answer)), P.Keep(id)), P.Finish(id)))
  {
    PlayThree(w, C.Answer(id, body, xmls), C.Protocol(P.Keep(id)), C.Protocol(P.Finish(id)));
    AnswerIs(w, id, body, xmls, keys);
    hide P.Act, C.PlayAll, C.Held, C.Bearing;
  }

  lemma AnswerIs(w: C.World, id: int, body: string, xmls: seq<string>, keys: seq<FolioKey>)
    requires |w.ledger.taken| == |w.ledger.owners| && C.Held(w.ledger.taken, w.ledger.owners, id) == keys && |keys| == |xmls|
    ensures C.Play(w, C.Answer(id, body, xmls)) == w.(system := P.Act(w.system, P.Return(id, R.Response(body, C.Bearing(keys, xmls)))))
  {
    hide C.Held, P.Act;
    assert keys[..|xmls|] == keys;
  }
}
