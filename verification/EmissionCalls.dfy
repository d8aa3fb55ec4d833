/**
 Calls, allocator and archive in one system: a call takes folios from the allocator while it
 executes, and answers with documents that bear them. Nothing has to be assumed of what emissions
 return, nor, apart from how an upload can fail, of how they fail.
 */
module EmissionCalls {
  import opened Wrappers
  import opened EmissionRecords
  import opened IdempotencyProtocol
  import opened EmissionEndToEnd
  import E = EmissionEndings
  import H = FolioHistory
  import opened FolioStore

  /** The tables of the allocator, the folios it delivered with the call each was for, and the calls
      with their store. */
  datatype World = World(db: Db, ledger: Ledger, system: IdempotencyProtocol.System)

  datatype Move =
    | Protocol(action: Action)
    | Allocate(id: int, docType: int, today: Date, requestId: string)
    | Answer(id: int, body: string, xmls: seq<string>)
    | Operate(event: H.Event)

  /** The folios delivered for a call, in order. */
  function Held(taken: seq<H.Taken>, owners: seq<int>, id: int): seq<FolioKey>
    requires |taken| == |owners|
  {
    if taken == [] then []
    else
      var n := |taken| - 1;
      Held(taken[..n], owners[..n], id) + if owners[n] == id then [taken[n].key] else []
  }

  /** The documents of an envelope whose `i`-th document bears `keys[i]`. */
  function Bearing(keys: seq<FolioKey>, xmls: seq<string>): (r: seq<Document>)
    requires |keys| == |xmls|
    ensures |r| == |keys| && forall i :: 0 <= i < |keys| ==> r[i] == Document(keys[i].account.docType, keys[i].folio, xmls[i])
  {
    seq(|keys|, i requires 0 <= i < |keys| => Document(keys[i].account.docType, keys[i].folio, xmls[i]))
  }

  /** What a call answers: documents that bear the first of the folios it took. */
  function AnswerOf(w: World, id: int, body: string, xmls: seq<string>): Response
    requires Paired(w.ledger) && |xmls| <= |Held(w.ledger.taken, w.ledger.owners, id)|
  {
    Response(body, Bearing(Held(w.ledger.taken, w.ledger.owners, id)[..|xmls|], xmls))
  }

  function Copies(id: int, n: nat): (r: seq<int>)
    ensures |r| == n && forall x <- r :: x == id
  {
    seq(n, _ => id)
  }

  /** One step of the allocator, of a call or of an operator. A call returns only by answering, and
      folios are taken only for calls. */
  function Play(w: World, move: Move): World {
    match move
    case Protocol(action) => if action.Return? then w else w.(system := Act(w.system, action))
    case Allocate(id, docType, today, requestId) =>
      if !IsExecuting(w.system, id) then w
      else
        var (after, more) := H.Step(w.db, H.Take(Account(w.system.calls[id].request.customer, docType), today, requestId));
        World(after, Ledger(w.ledger.taken + more, w.ledger.owners + Copies(id, |more|)), w.system)
    case Answer(id, body, xmls) =>
      if !Paired(w.ledger) || |xmls| > |Held(w.ledger.taken, w.ledger.owners, id)| then w
      else w.(system := Act(w.system, Return(id, AnswerOf(w, id, body, xmls))))
    case Operate(event) => if event.Take? then w else w.(db := H.Step(w.db, event).0)
  }

  function PlayAll(w: World, moves: seq<Move>): World {
    if moves == [] then w else Play(PlayAll(w, moves[..|moves| - 1]), moves[|moves| - 1])
  }

  /** What a step is for the tables and for the calls. */
  function EventOf(w: World, move: Move): seq<H.Event> {
    match move
    case Allocate(id, docType, today, requestId) =>
      if IsExecuting(w.system, id) then [H.Take(Account(w.system.calls[id].request.customer, docType), today, requestId)] else []
    case Operate(event) => if event.Take? then [] else [event]
    case _ => []
  }

  function ActionOf(w: World, move: Move): seq<Action> {
    match move
    case Protocol(action) => if action.Return? then [] else [action]
    case Answer(id, body, xmls) =>
      if !Paired(w.ledger) || |xmls| > |Held(w.ledger.taken, w.ledger.owners, id)| then []
      else [Return(id, AnswerOf(w, id, body, xmls))]
    case _ => []
  }

  function EventsOf(w: World, moves: seq<Move>): seq<H.Event> {
    if moves == [] then []
    else EventsOf(w, moves[..|moves| - 1]) + EventOf(PlayAll(w, moves[..|moves| - 1]), moves[|moves| - 1])
  }

  function ActionsOf(w: World, moves: seq<Move>): seq<Action> {
    if moves == [] then []
    else ActionsOf(w, moves[..|moves| - 1]) + ActionOf(PlayAll(w, moves[..|moves| - 1]), moves[|moves| - 1])
  }

  function Start(db: Db): World {
    World(db, Ledger([], []), NOTHING_YET)
  }

  // ---------------------------------------------------------------- the two histories of one system

  lemma RunNext(db: Db, events: seq<H.Event>, event: H.Event)
    ensures var (middle, taken) := H.Run(db, events);
            H.Run(db, events + [event]) == (H.Step(middle, event).0, taken + H.Step(middle, event).1)
  {
    assert (events + [event])[..|events|] == events;
    hide H.Step;
  }

  lemma PlayTables(w: World, move: Move)
    ensures var events, after := EventOf(w, move), Play(w, move);
            && |events| <= 1
            && (events == [] ==> after.db == w.db && after.ledger == w.ledger)
            && (events != [] ==> after.db == H.Step(w.db, events[0]).0 && after.ledger.taken == w.ledger.taken + H.Step(w.db, events[0]).1)
            && (Paired(w.ledger) ==> Paired(after.ledger))
  {
    hide Act, FolioStore.NextFolio, FolioStore.AddCaf, FolioStore.InsertCaf, FolioStore.RetireCaf;
  }

  /** The tables and the ledger are those of a run of the allocator. */
  lemma {:induction false} TablesAreARun(db: Db, moves: seq<Move>)
    ensures var w := PlayAll(Start(db), moves);
            (w.db, w.ledger.taken) == H.Run(db, EventsOf(Start(db), moves)) && Paired(w.ledger)
  {
    if moves != [] {
      var start, last := moves[..|moves| - 1], moves[|moves| - 1];
      var w := PlayAll(Start(db), start);
      TablesAreARun(db, start);
      PlayTables(w, last);
      var before, events := EventsOf(Start(db), start), EventOf(w, last);
      assert EventsOf(Start(db), moves) == before + events;
      hide Play, H.Step, EventOf, Paired;
      if events == [] {
        assert before + [] == before;
      } else {
        assert events == [events[0]];
        RunNext(db, before, events[0]);
      }
    }
  }

  lemma PlayCalls(w: World, move: Move)
    ensures var actions, after := ActionOf(w, move), Play(w, move);
            |actions| <= 1 && after.system == if actions == [] then w.system else Act(w.system, actions[0])
  {
    hide Act, H.Step;
  }

  /** The calls and their store are those of a run of the protocol. */
  lemma {:induction false} CallsAreARun(db: Db, moves: seq<Move>)
    ensures PlayAll(Start(db), moves).system == ActAll(NOTHING_YET, ActionsOf(Start(db), moves))
  {
    if moves != [] {
      var start, last := moves[..|moves| - 1], moves[|moves| - 1];
      var w := PlayAll(Start(db), start);
      CallsAreARun(db, start);
      PlayCalls(w, last);
      var before, actions := ActionsOf(Start(db), start), ActionOf(w, last);
      assert ActionsOf(Start(db), moves) == before + actions;
      hide Play, Act, ActionOf;
      if actions == [] {
        assert before + [] == before;
      } else {
        assert actions == [actions[0]];
        ActAllNext(NOTHING_YET, before, actions[0]);
      }
    }
  }

  // ---------------------------------------------------------------- what calls answer is theirs

  lemma {:induction false} HeldWereTaken(taken: seq<H.Taken>, owners: seq<int>, id: int, m: nat)
    requires |taken| == |owners| && m < |Held(taken, owners, id)|
    ensures exists i :: 0 <= i < |taken| && owners[i] == id && taken[i].key == Held(taken, owners, id)[m]
  {
    var n := |taken| - 1;
    var before := Held(taken[..n], owners[..n], id);
    if m < |before| {
      HeldWereTaken(taken[..n], owners[..n], id, m);
      var i :| 0 <= i < n && owners[..n][i] == id && taken[..n][i].key == before[m];
      assert owners[i] == id && taken[i].key == before[m];
    } else {
      assert owners[n] == id && taken[n].key == Held(taken, owners, id)[m];
    }
  }

  lemma {:induction false} HeldAreDistinct(taken: seq<H.Taken>, owners: seq<int>, id: int)
    requires |taken| == |owners| && IsLedger(Ledger(taken, owners))
    ensures forall a, b :: 0 <= a < b < |Held(taken, owners, id)| ==> Held(taken, owners, id)[a] != Held(taken, owners, id)[b]
  {
    if taken != [] {
      var n := |taken| - 1;
      var before := Held(taken[..n], owners[..n], id);
      assert IsLedger(Ledger(taken[..n], owners[..n]));
      HeldAreDistinct(taken[..n], owners[..n], id);
      forall m: nat | m < |before| ensures before[m] != taken[n].key {
        HeldWereTaken(taken[..n], owners[..n], id, m);
        var i :| 0 <= i < n && owners[..n][i] == id && taken[..n][i].key == before[m];
        assert taken[i].key == before[m];
      }
    }
  }

  /** Every folio taken for a call is its customer's. */
  ghost predicate OwnersOk(w: World) {
    Paired(w.ledger) && forall i :: 0 <= i < |w.ledger.taken| ==>
      && w.ledger.owners[i] in w.system.calls
      && w.ledger.taken[i].key.account.customer == w.system.calls[w.ledger.owners[i]].request.customer
  }

  lemma TakeIsOf(db: Db, account: Account, today: Date, requestId: string)
    ensures forall t <- H.Step(db, H.Take(account, today, requestId)).1 :: t.key.account == account
  {
    hide FolioStore.NextFolio;
  }

  lemma PlayKeepsOwners(w: World, move: Move)
    requires OwnersOk(w)
    ensures OwnersOk(Play(w, move))
  {
    PlayCalls(w, move);
    var actions, after := ActionOf(w, move), Play(w, move);
    if actions != [] {
      ActTouchesOneCall(w.system, actions[0]);
      hide Act;
      assert after.ledger == w.ledger;
      assert forall id <- w.system.calls ::
          RequestOf(after.system, id) == RequestOf(w.system, id) && id in after.system.calls;
    } else {
      match move
      case Allocate(id, docType, today, requestId) =>
        if IsExecuting(w.system, id) {
          TakeIsOf(w.db, Account(w.system.calls[id].request.customer, docType), today, requestId);
        }
        hide Act, H.Step;
      case _ =>
        hide Act, H.Step;
    }
  }

  lemma {:induction false} PlayAllKeepsOwners(db: Db, moves: seq<Move>)
    ensures OwnersOk(PlayAll(Start(db), moves))
  {
    hide Play, OwnersOk;
    if moves == [] {
      NoOwnersYet(db);
    } else {
      PlayAllKeepsOwners(db, moves[..|moves| - 1]);
      PlayKeepsOwners(PlayAll(Start(db), moves[..|moves| - 1]), moves[|moves| - 1]);
    }
  }

  lemma NoOwnersYet(db: Db)
    ensures OwnersOk(Start(db))
  {
  }

  lemma LedgerOk(db: Db, moves: seq<Move>)
    requires H.Sound(db)
    ensures IsLedger(PlayAll(Start(db), moves).ledger)
  {
    TablesAreARun(db, moves);
    var w := PlayAll(Start(db), moves);
    LedgerOfRun(db, EventsOf(Start(db), moves), w.ledger.owners);
    hide H.Sound, H.Run, IsLedger, PlayAll;
    assert w.ledger == Ledger(w.ledger.taken, w.ledger.owners);
  }

  /** So whatever a call answers is backed by what was taken for it. */
  lemma AnswersAreBacked(w: World, move: Move)
    requires OwnersOk(w) && IsLedger(w.ledger) && ActionOf(w, move) != []
    ensures Backed(w.ledger, w.system, ActionOf(w, move)[0])
  {
    var action := ActionOf(w, move)[0];
    if action.Return? && IsExecuting(w.system, action.id) {
      var id, customer, documents := action.id, w.system.calls[action.id].request.customer, action.response.documents;
      var keys := Held(w.ledger.taken, w.ledger.owners, id);
      HeldAreDistinct(w.ledger.taken, w.ledger.owners, id);
      forall m: nat | m < |documents|
        ensures FolioOf(KeyOf(customer, documents[m])) == keys[m] && TakenFor(w.ledger, KeyOf(customer, documents[m]), id)
      {
        HeldWereTaken(w.ledger.taken, w.ledger.owners, id, m);
      }
      forall d | d in documents ensures TakenFor(w.ledger, KeyOf(customer, d), id) {
        var m :| 0 <= m < |documents| && documents[m] == d;
      }
      hide Held, TakenFor, IsLedger;
    }
  }

  lemma LongerLedger(a: Ledger, b: Ledger, s: IdempotencyProtocol.System)
    requires Paired(a) && Paired(b) && a.taken <= b.taken && a.owners <= b.owners && Accounted(a, s)
    ensures Accounted(b, s)
  {
    forall key, id | TakenFor(a, key, id) ensures TakenFor(b, key, id) {
      var i :| 0 <= i < |a.taken| && a.taken[i].key == FolioOf(key) && a.owners[i] == id;
      assert b.taken[i] == a.taken[i] && b.owners[i] == a.owners[i];
    }
    hide TakenFor;
  }

  lemma LedgerGrows(w: World, move: Move)
    ensures w.ledger.taken <= Play(w, move).ledger.taken && w.ledger.owners <= Play(w, move).ledger.owners
    ensures ActionOf(w, move) != [] ==> Play(w, move).ledger == w.ledger
  {
    hide Act, H.Step;
  }

  lemma PlayKeepsAccounted(w: World, move: Move)
    requires OwnersOk(w) && IsLedger(w.ledger) && Accounted(w.ledger, w.system)
    ensures Paired(Play(w, move).ledger) && Accounted(Play(w, move).ledger, Play(w, move).system)
    ensures ActionOf(w, move) != [] ==> FreshReturn(w.system, ActionOf(w, move)[0])
  {
    assert Paired(w.ledger);
    PlayCalls(w, move);
    PlayTables(w, move);
    LedgerGrows(w, move);
    hide Play, Act, IsLedger, OwnersOk, Accounted, FreshReturn;
    if ActionOf(w, move) != [] {
      AnswersAreBacked(w, move);
      ActKeepsAccounted(w.ledger, w.system, ActionOf(w, move)[0]);
      BackedIsFresh(w.ledger, w.system, ActionOf(w, move)[0]);
    } else {
      LongerLedger(w.ledger, Play(w, move).ledger, w.system);
    }
  }

  lemma FreshNext(s: IdempotencyProtocol.System, actions: seq<Action>, action: Action)
    requires AllFresh(s, actions) && FreshReturn(ActAll(s, actions), action)
    ensures AllFresh(s, actions + [action])
  {
    hide FreshReturn, ActAll;
    var all := actions + [action];
    assert all[..|actions|] == actions;
    assert forall n :: 0 <= n < |actions| ==> all[..n] == actions[..n] && all[n] == actions[n];
  }

  /** Over any play every answer is fresh: nothing has to be assumed of it. */
  lemma {:induction false} EveryAnswerIsFresh(db: Db, moves: seq<Move>)
    requires H.Sound(db)
    ensures AllFresh(NOTHING_YET, ActionsOf(Start(db), moves))
    ensures Paired(PlayAll(Start(db), moves).ledger)
    ensures Accounted(PlayAll(Start(db), moves).ledger, PlayAll(Start(db), moves).system)
  {
    hide H.Sound, FreshReturn, Play, ActAll, IsLedger, OwnersOk, ActionOf;
    if moves != [] {
      var start, last := moves[..|moves| - 1], moves[|moves| - 1];
      var w := PlayAll(Start(db), start);
      var before, actions := ActionsOf(Start(db), start), ActionOf(w, last);
      EveryAnswerIsFresh(db, start);
      PlayAllKeepsOwners(db, start);
      LedgerOk(db, start);
      CallsAreARun(db, start);
      PlayKeepsAccounted(w, last);
      PlayCalls(w, last);
      assert ActionsOf(Start(db), moves) == before + actions;
      hide AllFresh, Accounted;
      if actions == [] {
        assert before + [] == before;
      } else {
        assert actions == [actions[0]];
        FreshNext(NOTHING_YET, before, actions[0]);
      }
    }
  }

  /** End to end, from an empty store: however the allocator, operators and calls interleave, and
      wherever calls die, once a request is done every later replay answers the same and each of its
      documents is retrievable as it was emitted, for ever. */
  lemma RetriesAgree(db: Db, moves: seq<Move>, later: seq<Action>, request: EmissionRecords.Request)
    requires H.Sound(db)
    ensures var system := PlayAll(Start(db), moves).system;
            Replay(system.store, request).Ok? ==>
              var response, end := Replay(system.store, request).value, ActAll(system, later);
              && Replay(end.store, request) == Ok(response)
              && forall d <- response.documents :: StoredXml(end.store, KeyOf(request.customer, d)) == Some(d.xml)
  {
    var actions := ActionsOf(Start(db), moves);
    CallsAreARun(db, moves);
    EveryAnswerIsFresh(db, moves);
    NothingIsOk();
    hide H.Sound, FreshReturn, HoldersOk, ArchiveOk, PlayAll, Act, Accounted, AllFresh;
    if Replay(ActAll(NOTHING_YET, actions).store, request).Ok? {
      RetryAgreesWithArchive(NOTHING_YET, actions, later, request);
    }
  }

  // ---------------------------------------------------------------- emissions as calls

  /** The documents of an envelope, as they are archived. */
  function EnvelopeOf(dtes: seq<E.Dte>, xmls: seq<string>): (r: seq<Document>)
    requires |dtes| == |xmls|
  {
    seq(|dtes|, i requires 0 <= i < |dtes| => Document(dtes[i].docType, dtes[i].folio, xmls[i]))
  }

  /** A batch that was emitted answers documents that bear the folios it took, in order. */
  lemma BatchBearsItsFolios(customer: int, documents: seq<E.Document>, dtes: seq<E.Dte>, taken: seq<FolioKey>, xmls: seq<string>)
    requires E.EmittedBatch(customer, documents, dtes, taken) && |xmls| == |dtes|
    ensures EnvelopeOf(dtes, xmls) == Bearing(taken, xmls)
  {
    forall i | 0 <= i < |dtes| ensures dtes[i].docType == taken[i].account.docType && dtes[i].folio == taken[i].folio {
      assert E.ResolvedDte(documents[i], E.DomainDte(documents[i]).(folio := dtes[i].folio), dtes[i], dtes);
    }
  }

  /** What the store of calls makes of a fault: it only asks whether the data was bad. */
  function FaultOf(fault: E.Fault): EmissionRecords.Fault {
    if E.IsDataFault(fault) then DataFault else OtherFault("")
  }

  /** What an emission that ends so does to its call. */
  function EndOfCall(id: int, e: E.Ending, response: Response): seq<Action> {
    (if e.uploaded then [Upload(id)] else [])
    + [if e.fault.None? then Return(id, response) else Raise(id, FaultOf(e.fault.value))]
  }

  /** It ends with a data error after the upload. */
  predicate EndsLate(e: E.Ending) {
    e.uploaded && e.fault.Some? && E.IsDataFault(e.fault.value)
  }

  lemma EndsEarlyExactly(s: IdempotencyProtocol.System, id: int, e: E.Ending, response: Response)
    requires At(s, id, Executing(false)) && Protected(s.calls[id].request)
    ensures AllEarly(s, EndOfCall(id, e, response)) <==> !EndsLate(e)
  {
    var actions := EndOfCall(id, e, response);
    assert ActAll(s, []) == s && actions[..0] == [];
    if e.uploaded {
      assert actions[..1] == [Upload(id)] && [Upload(id)][..0] == [];
      assert ActAll(s, actions[..1]) == Act(s, Upload(id));
      assert At(Act(s, Upload(id)), id, Executing(true)) && Act(s, Upload(id)).calls[id].request == s.calls[id].request;
      assert actions[1] == if e.fault.None? then Return(id, response) else Raise(id, FaultOf(e.fault.value));
    } else {
      assert !At(s, id, Executing(true));
    }
  }

  /** An upload that fails with an error in the data: the only way an emission can end with one after
      the upload. */
  predicate UploadBlamesData(outside: E.Outside) {
    outside.uploadFault.Some? && E.IsDataFault(outside.uploadFault.value)
  }

  /** The call of one document can be uploaded twice exactly when its envelope was built and sent, and
      the upload failed with an error in the data. */
  lemma IssueIsEarlyExactly(
      s: IdempotencyProtocol.System, id: int, response: Response,
      db: Db, request: E.Request, outside: E.Outside, today: Date, requestId: string)
    requires At(s, id, Executing(false)) && Protected(s.calls[id].request)
    ensures AllEarly(s, EndOfCall(id, E.IssueEnding(db, request, outside, today, requestId), response)) <==>
            !(E.Acceptable(request.document) && E.HasFolio(db, request, today, requestId)
              && outside.buildFault.None? && request.send && UploadBlamesData(outside))
  {
    E.IssueEndsExactly(db, request, outside, today, requestId);
    EndsEarlyExactly(s, id, E.IssueEnding(db, request, outside, today, requestId), response);
    hide AllEarly, E.IssueEnding, E.HasFolio, Act;
  }

  /** So with a batch. */
  lemma BatchIsEarlyExactly(
      s: IdempotencyProtocol.System, id: int, response: Response,
      db: Db, customer: int, documents: seq<E.Document>, send: bool, outside: E.Outside, today: Date, requestId: string)
    requires At(s, id, Executing(false)) && Protected(s.calls[id].request)
    ensures AllEarly(s, EndOfCall(id, E.BatchEnding(db, customer, documents, send, outside, today, requestId), response)) <==>
            !(E.AllAcceptable(documents) && E.HasFolios(db, customer, documents, today, requestId)
              && !E.AnyDangling(documents) && documents != []
              && outside.buildFault.None? && send && UploadBlamesData(outside))
  {
    E.BatchEndsExactly(db, customer, documents, send, outside, today, requestId);
    E.BatchFaults(db, customer, documents, send, outside, today, requestId);
    EndsEarlyExactly(s, id, E.BatchEnding(db, customer, documents, send, outside, today, requestId), response);
    hide AllEarly, E.BatchEnding, E.HasFolios, E.AnyDangling, E.AllAcceptable, Act;
  }
}
