/**
 Concurrent emission requests over the idempotency store: any number of requests, any
 interleaving of their commits, any of them dying at any point.
 */
module IdempotencyProtocol {
  import opened Wrappers
  import opened EmissionRecords
  import Sets

  /** How far one execution of a request has got. */
  datatype Phase =
    | Arrived
    | Executing(uploaded: bool)
    | Emitted(response: Response)
    | Archived(response: Response)
    | Over

  datatype Call = Call(request: Request, phase: Phase)

  /** `calls` by identifier; identifiers are never used again. `uploads` lists, in order, the
      calls whose emission reached the tax authority. */
  datatype System = System(store: Store, calls: map<int, Call>, uploads: seq<int>)

  datatype Action =
    | Arrive(id: int, request: Request)
    | Start(id: int)
    | Upload(id: int)
    | Return(id: int, response: Response)
    | Raise(id: int, fault: Fault)
    | Keep(id: int)
    | Finish(id: int)
    | Die(id: int)

  predicate At(s: System, id: int, phase: Phase) {
    id in s.calls && s.calls[id].phase == phase
  }

  predicate IsExecuting(s: System, id: int) {
    id in s.calls && s.calls[id].phase.Executing?
  }

  function Move(s: System, id: int, phase: Phase): System
    requires id in s.calls
  {
    s.(calls := s.calls[id := s.calls[id].(phase := phase)])
  }

  predicate Protected(request: Request) {
    request.key != ""
  }

  /** One commit, one upload, or one death. A retry whose key is taken is over: it only reads. */
  function Act(s: System, action: Action): System {
    match action
    case Arrive(id, request) =>
      if id in s.calls then s else s.(calls := s.calls[id := Call(request, Arrived)])
    case Start(id) =>
      if !At(s, id, Arrived) then s
      else
        var request := s.calls[id].request;
        if !Protected(request) then Move(s, id, Executing(false))
        else if request in s.store.markers then Move(s, id, Over)
        else Move(s, id, Executing(false)).(store := Claim(s.store, request))
    case Upload(id) =>
      if !At(s, id, Executing(false)) then s
      else Move(s, id, Executing(true)).(uploads := s.uploads + [id])
    case Return(id, response) =>
      if !IsExecuting(s, id) then s else Move(s, id, Emitted(response))
    case Raise(id, fault) =>
      if !IsExecuting(s, id) then s
      else
        var request := s.calls[id].request;
        var over := Move(s, id, Over);
        if Protected(request) then over.(store := CloseFailed(s.store, request, fault)) else over
    case Keep(id) =>
      if !(id in s.calls && s.calls[id].phase.Emitted?) then s
      else
        var call := s.calls[id];
        (match Archive(s.store, call.request.customer, call.phase.response.documents)
         case None => Move(s, id, Over)
         case Some(store) => Move(s, id, Archived(call.phase.response)).(store := store))
    case Finish(id) =>
      if !(id in s.calls && s.calls[id].phase.Archived?) then s
      else
        var call := s.calls[id];
        var over := Move(s, id, Over);
        if Protected(call.request) then over.(store := Complete(s.store, call.request, call.phase.response)) else over
    case Die(id) =>
      if id in s.calls then Move(s, id, Over) else s
  }

  function ActAll(s: System, actions: seq<Action>): System {
    if actions == [] then s else Act(ActAll(s, actions[..|actions| - 1]), actions[|actions| - 1])
  }

  // ---------------------------------------------------------------- at most once

  /** The call holds the marker of its key: it is between claiming it and closing it. */
  predicate Holding(call: Call) {
    Protected(call.request) && (call.phase.Executing? || call.phase.Emitted? || call.phase.Archived?)
  }

  /** A holder is the only one for its key and its marker is running. */
  ghost predicate HoldersOk(s: System) {
    && (forall id <- s.calls :: Holding(s.calls[id]) ==>
          s.calls[id].request in s.store.markers && s.store.markers[s.calls[id].request] == Running)
    && (forall i, j :: i in s.calls && j in s.calls && i != j && Holding(s.calls[i]) && Holding(s.calls[j]) ==>
          s.calls[i].request != s.calls[j].request)
  }

  function RequestOf(s: System, id: int): Request {
    if id in s.calls then s.calls[id].request else Request(0, "")
  }

  /** A key under which something was uploaded keeps its marker, and its holder, if it still has
      one, is the call that uploaded. */
  ghost predicate UploadsOk(s: System) {
    forall id <- s.uploads ::
      && id in s.calls && s.calls[id].phase != Arrived && s.calls[id].phase != Executing(false)
      && (Protected(RequestOf(s, id)) ==>
            && RequestOf(s, id) in s.store.markers
            && forall h <- s.calls :: Holding(s.calls[h]) && RequestOf(s, h) == RequestOf(s, id) ==> h == id)
  }

  ghost predicate UploadsListed(s: System) {
    forall id <- s.calls :: s.calls[id].phase == Executing(true) ==> id in s.uploads
  }

  /** No two uploads belong to requests with one key. */
  ghost predicate AtMostOnce(s: System) {
    forall m, n :: 0 <= m < n < |s.uploads| && Protected(RequestOf(s, s.uploads[m])) ==>
      RequestOf(s, s.uploads[m]) != RequestOf(s, s.uploads[n])
  }

  ghost predicate Inv(s: System) {
    HoldersOk(s) && UploadsOk(s) && UploadsListed(s) && AtMostOnce(s)
  }

  /** Under a key, faults treated as bad data arise before the upload. */
  predicate DataFaultIsEarly(s: System, action: Action) {
    action.Raise? && action.fault.DataFault? && At(s, action.id, Executing(true)) ==> !Protected(s.calls[action.id].request)
  }

  ghost predicate AllEarly(s: System, actions: seq<Action>) {
    forall n :: 0 <= n < |actions| ==> DataFaultIsEarly(ActAll(s, actions[..n]), actions[n])
  }

  /** What an action may do to the calls: it touches one call, which keeps its request. */
  lemma ActTouchesOneCall(s: System, action: Action)
    ensures forall id <- s.calls :: id in Act(s, action).calls && RequestOf(Act(s, action), id) == RequestOf(s, id)
    ensures forall id <- s.calls :: id != action.id ==> Act(s, action).calls[id] == s.calls[id]
  {
  }

  ghost predicate HoldersRun(s: System) {
    forall id <- s.calls :: Holding(s.calls[id]) ==>
      s.calls[id].request in s.store.markers && s.store.markers[s.calls[id].request] == Running
  }

  lemma ActKeepsHoldersRun(s: System, action: Action)
    requires HoldersOk(s)
    ensures HoldersRun(Act(s, action))
  {
    if action.Keep? {
      KeepLeavesMarkers(s, action.id);
    }
    hide Archive, Truncated;
  }

  lemma ActKeepsHolders(s: System, action: Action)
    requires HoldersOk(s)
    ensures HoldersOk(Act(s, action))
  {
    ActKeepsHoldersRun(s, action);
    hide Archive, CloseFailed, Complete;
  }

  lemma KeepLeavesMarkers(s: System, id: int)
    ensures Act(s, Keep(id)).store.markers == s.store.markers
  {
  }

  lemma ActKeepsUploads(s: System, action: Action)
    requires HoldersOk(s) && UploadsOk(s) && DataFaultIsEarly(s, action)
    ensures UploadsOk(Act(s, action))
  {
    if action.Keep? {
      KeepLeavesMarkers(s, action.id);
    }
    hide Archive;
  }

  lemma ActKeepsListed(s: System, action: Action)
    requires UploadsListed(s)
    ensures UploadsListed(Act(s, action))
  {
    hide Archive;
  }

  lemma ActKeepsInv(s: System, action: Action)
    requires Inv(s) && DataFaultIsEarly(s, action)
    ensures Inv(Act(s, action))
  {
    ActKeepsListed(s, action);
    ActKeepsHolders(s, action);
    ActKeepsUploads(s, action);
    ActTouchesOneCall(s, action);
    var after := Act(s, action);
    forall m, n | 0 <= m < n < |after.uploads| && Protected(RequestOf(after, after.uploads[m]))
      ensures RequestOf(after, after.uploads[m]) != RequestOf(after, after.uploads[n])
    {
      assert s.uploads <= after.uploads;
      assert s.uploads[m] in s.uploads;
      if n < |s.uploads| {
        assert s.uploads[n] in s.uploads;
      }
    }
  }

  /** At-most-once emission: over every interleaving and every pattern of deaths, as long as bad
      data is reported before uploading, no two uploads carry the same key. */
  lemma {:induction false} EveryRunUploadsOnce(s: System, actions: seq<Action>)
    requires Inv(s) && AllEarly(s, actions)
    ensures Inv(ActAll(s, actions))
    ensures AtMostOnce(ActAll(s, actions))
  {
    if actions != [] {
      var start := actions[..|actions| - 1];
      forall n | 0 <= n < |start| ensures DataFaultIsEarly(ActAll(s, start[..n]), start[n]) {
        assert start[..n] == actions[..n];
      }
      EveryRunUploadsOnce(s, start);
      ActKeepsInv(ActAll(s, start), actions[|actions| - 1]);
    }
  }

  /** A closed marker is final, and a running one is touched only by the call that holds it. */
  lemma MarkerDiscipline(s: System, action: Action, request: Request)
    requires HoldersOk(s) && request in s.store.markers
    ensures s.store.markers[request] != Running ==>
              request in Act(s, action).store.markers && Act(s, action).store.markers[request] == s.store.markers[request]
    ensures request !in Act(s, action).store.markers || Act(s, action).store.markers[request] != s.store.markers[request] ==>
              action.id in s.calls && s.calls[action.id].request == request && Holding(s.calls[action.id])
  {
    if action.Keep? {
      KeepLeavesMarkers(s, action.id);
    }
    hide Archive;
  }

  function Retry(retry: int, request: Request): seq<Action> {
    [Arrive(retry, request), Start(retry), Upload(retry)]
  }

  lemma UnrollThree(s: System, a: seq<Action>)
    requires |a| == 3
    ensures ActAll(s, a) == Act(Act(Act(s, a[0]), a[1]), a[2])
  {
    assert a[..2][..1] == a[..1] && a[..1][..0] == [];
    assert ActAll(s, a[..1]) == Act(s, a[0]);
    assert ActAll(s, a[..2]) == Act(ActAll(s, a[..1]), a[1]);
  }

  /** Whenever a call that already uploaded under a key fails with a data fault, the key is free
      again and a plain retry, without any further fault, uploads a second time. */
  lemma LateDataFaultUploadsTwice(s: System, id: int, retry: int)
    requires Inv(s) && At(s, id, Executing(true)) && Protected(s.calls[id].request)
    requires retry !in s.calls
    ensures var after, later := Act(s, Raise(id, DataFault)), Retry(retry, s.calls[id].request);
            AllEarly(after, later) && !AtMostOnce(ActAll(after, later))
  {
    var request := s.calls[id].request;
    var later := Retry(retry, request);
    var s1 := Act(s, Raise(id, DataFault));
    UnrollThree(s1, later);
    forall n | 0 <= n < |later| ensures DataFaultIsEarly(ActAll(s1, later[..n]), later[n]) {
      assert later[n] == later[0] || later[n] == later[1] || later[n] == later[2];
    }
    assert request !in s1.store.markers;
    var s2 := Act(s1, later[0]);
    var s3 := Act(s2, later[1]);
    assert At(s3, retry, Executing(false));
    var end := Act(s3, later[2]);
    assert end.uploads == s.uploads + [retry];
    var m :| 0 <= m < |s.uploads| && s.uploads[m] == id;
    assert end.uploads[m] == id && end.uploads[|s.uploads|] == retry;
    assert RequestOf(end, id) == RequestOf(end, retry) == request;
  }

  lemma {:induction false} BoundExists(ids: set<int>) returns (m: int)
    ensures forall x <- ids :: x < m
  {
    if ids == {} {
      m := 0;
    } else {
      Sets.SomeMember(ids);
      var x :| x in ids;
      var rest := BoundExists(ids - {x});
      m := if rest <= x then x + 1 else rest;
      assert forall y <- ids :: y == x || y in ids - {x};
    }
  }

  /** From then on no two uploads can carry one key, whatever happens without a late data fault. */
  ghost predicate Safe(s: System) {
    forall later :: AllEarly(s, later) ==> AtMostOnce(ActAll(s, later))
  }

  /** The hypothesis on data faults is exact: a step leaves the system safe if and only if it is not
      a data fault, under a key, after the upload. */
  lemma UploadsOnceExactly(s: System, action: Action)
    requires Inv(s)
    ensures Safe(Act(s, action)) <==> DataFaultIsEarly(s, action)
  {
    hide Act, Inv, AllEarly, AtMostOnce, ActAll;
    if DataFaultIsEarly(s, action) {
      ActKeepsInv(s, action);
      forall later | AllEarly(Act(s, action), later) ensures AtMostOnce(ActAll(Act(s, action), later)) {
        EveryRunUploadsOnce(Act(s, action), later);
      }
    } else {
      var retry := BoundExists(s.calls.Keys);
      LateDataFaultUploadsTwice(s, action.id, retry);
      assert action == Raise(action.id, DataFault);
    }
  }

  // ---------------------------------------------------------------- retries agree with the archive

  function Documents(call: Call): seq<Document> {
    if call.phase.Emitted? || call.phase.Archived? then call.phase.response.documents else []
  }

  ghost predicate Stored(store: Store, customer: int, documents: seq<Document>) {
    forall d <- documents :: StoredXml(store, KeyOf(customer, d)) == Some(d.xml)
  }

  ghost predicate Absent(store: Store, customer: int, documents: seq<Document>) {
    forall d <- documents :: KeyOf(customer, d) !in store.archive
  }

  ghost predicate NoCommonKey(c: int, xs: seq<Document>, d: int, ys: seq<Document>) {
    forall x <- xs, y <- ys :: KeyOf(c, x) != KeyOf(d, y)
  }

  /** The documents an emission returns bear folios no other emission ever had: what the
      allocator guarantees of every folio it delivers. */
  ghost predicate FreshReturn(s: System, action: Action) {
    action.Return? && IsExecuting(s, action.id) ==>
      var customer := s.calls[action.id].request.customer;
      var documents := action.response.documents;
      && KeysDistinct(customer, documents) && Absent(s.store, customer, documents)
      && forall j <- s.calls :: s.calls[j].phase.Emitted? ==>
           NoCommonKey(customer, documents, s.calls[j].request.customer, Documents(s.calls[j]))
  }

  ghost predicate AllFresh(s: System, actions: seq<Action>) {
    forall n :: 0 <= n < |actions| ==> FreshReturn(ActAll(s, actions[..n]), actions[n])
  }

  /** Emitted documents are not yet stored and share no key; archived and completed ones are
      stored as emitted. */
  ghost predicate ArchiveOk(s: System) {
    && (forall id <- s.calls :: s.calls[id].phase.Emitted? ==>
          && KeysDistinct(s.calls[id].request.customer, Documents(s.calls[id]))
          && Absent(s.store, s.calls[id].request.customer, Documents(s.calls[id])))
    && (forall i, j :: i in s.calls && j in s.calls && i != j && s.calls[i].phase.Emitted? && s.calls[j].phase.Emitted? ==>
          NoCommonKey(s.calls[i].request.customer, Documents(s.calls[i]), s.calls[j].request.customer, Documents(s.calls[j])))
    && (forall id <- s.calls :: s.calls[id].phase.Archived? ==>
          Stored(s.store, s.calls[id].request.customer, Documents(s.calls[id])))
    && (forall r <- s.store.markers :: s.store.markers[r].Done? ==>
          Stored(s.store, r.customer, s.store.markers[r].response.documents))
  }

  lemma EntriesNeverChange(s: System, action: Action)
    ensures forall k <- s.store.archive ::
              k in Act(s, action).store.archive && Act(s, action).store.archive[k] == s.store.archive[k]
  {
    if action.Keep? && action.id in s.calls && s.calls[action.id].phase.Emitted? {
      var call := s.calls[action.id];
      if Archive(s.store, call.request.customer, Documents(call)).Some? {
        ArchiveIsWriteOnce(s.store, call.request.customer, Documents(call));
      }
    }
    hide Archive;
  }

  lemma KeepStores(s: System, id: int)
    requires ArchiveOk(s) && id in s.calls && s.calls[id].phase.Emitted?
    ensures var customer, documents := s.calls[id].request.customer, Documents(s.calls[id]);
            var archived := Archive(s.store, customer, documents);
            && archived.Some? && Stored(archived.value, customer, documents)
            && archived.value.markers == s.store.markers
            && forall k :: k in archived.value.archive <==> k in s.store.archive || exists d <- documents :: KeyOf(customer, d) == k
  {
    var customer, documents := s.calls[id].request.customer, Documents(s.calls[id]);
    MissingKeepsDistinct(s.store.archive, customer, documents);
    ArchiveIsWriteOnce(s.store, customer, documents);
    forall d | d in documents ensures StoredXml(Archive(s.store, customer, documents).value, KeyOf(customer, d)) == Some(d.xml) {
      ArchiveStoresEnvelope(s.store, customer, documents, d);
    }
  }

  lemma StoredLater(before: EmissionRecords.Store, after: EmissionRecords.Store, customer: int, documents: seq<Document>)
    requires Stored(before, customer, documents)
    requires forall k <- before.archive :: k in after.archive && after.archive[k] == before.archive[k]
    ensures Stored(after, customer, documents)
  {
    forall d | d in documents ensures StoredXml(after, KeyOf(customer, d)) == Some(d.xml) {
      assert StoredXml(before, KeyOf(customer, d)) == Some(d.xml);
    }
  }

  lemma KeepKeepsArchiveOk(s: System, id: int)
    requires ArchiveOk(s) && id in s.calls && s.calls[id].phase.Emitted?
    ensures ArchiveOk(Act(s, Keep(id)))
  {
    KeepStores(s, id);
    EntriesNeverChange(s, Keep(id));
    hide Archive, KeysDistinct, Stored;
    var after := Act(s, Keep(id));
    forall j | j in s.calls && s.calls[j].phase.Archived?
      ensures Stored(after.store, s.calls[j].request.customer, Documents(s.calls[j]))
    {
      StoredLater(s.store, after.store, s.calls[j].request.customer, Documents(s.calls[j]));
    }
    forall r | r in s.store.markers && s.store.markers[r].Done?
      ensures Stored(after.store, r.customer, s.store.markers[r].response.documents)
    {
      StoredLater(s.store, after.store, r.customer, s.store.markers[r].response.documents);
    }
    forall j | j in s.calls && j != id && s.calls[j].phase.Emitted?
      ensures Absent(after.store, s.calls[j].request.customer, Documents(s.calls[j]))
    {
      assert NoCommonKey(s.calls[j].request.customer, Documents(s.calls[j]), s.calls[id].request.customer, Documents(s.calls[id]));
    }
  }

  lemma ReturnKeepsArchiveOk(s: System, id: int, response: Response)
    requires ArchiveOk(s) && FreshReturn(s, Return(id, response)) && IsExecuting(s, id)
    ensures ArchiveOk(Act(s, Return(id, response)))
  {
    hide KeysDistinct, Stored, Absent;
    var after := Act(s, Return(id, response));
    assert Documents(after.calls[id]) == response.documents;
    forall j | j in s.calls && j != id && s.calls[j].phase.Emitted?
      ensures NoCommonKey(s.calls[j].request.customer, Documents(s.calls[j]), s.calls[id].request.customer, response.documents)
      ensures NoCommonKey(s.calls[id].request.customer, response.documents, s.calls[j].request.customer, Documents(s.calls[j]))
    {
    }
  }

  /** An action that neither keeps nor returns stores nothing, and moves no call into either phase
      that has documents; a marker becomes done only for a call that archived its response. */
  ghost predicate OnlyMarkers(s: System, after: System) {
    && after.store.archive == s.store.archive
    && (forall id <- after.calls :: after.calls[id].phase.Emitted? || after.calls[id].phase.Archived? ==>
          id in s.calls && s.calls[id] == after.calls[id])
    && (forall r <- after.store.markers :: after.store.markers[r].Done? ==>
          || (r in s.store.markers && s.store.markers[r] == after.store.markers[r])
          || (exists id <- s.calls :: s.calls[id].phase.Archived? && s.calls[id].request == r
                                      && after.store.markers[r].response == s.calls[id].phase.response))
  }

  lemma OthersOnlyMoveMarkers(s: System, action: Action)
    requires action.Keep? ==> !(action.id in s.calls && s.calls[action.id].phase.Emitted?)
    requires action.Return? ==> !IsExecuting(s, action.id)
    ensures OnlyMarkers(s, Act(s, action))
  {
    hide Archive;
  }

  lemma OnlyMarkersKeepsArchiveOk(s: System, after: System)
    requires ArchiveOk(s) && OnlyMarkers(s, after)
    ensures ArchiveOk(after)
  {
    forall customer, documents
      ensures Stored(after.store, customer, documents) == Stored(s.store, customer, documents)
      ensures Absent(after.store, customer, documents) == Absent(s.store, customer, documents)
    {
      SameArchive(s.store, after.store, customer, documents);
    }
    hide KeysDistinct, Stored, Absent, NoCommonKey;
    forall r | r in after.store.markers && after.store.markers[r].Done?
      ensures Stored(after.store, r.customer, after.store.markers[r].response.documents)
    {
      if !(r in s.store.markers && s.store.markers[r] == after.store.markers[r]) {
        var id :| id in s.calls && s.calls[id].phase.Archived? && s.calls[id].request == r
                  && after.store.markers[r].response == s.calls[id].phase.response;
        assert Stored(s.store, r.customer, Documents(s.calls[id]));
      }
    }
  }

  lemma ActKeepsArchiveOk(s: System, action: Action)
    requires ArchiveOk(s) && FreshReturn(s, action)
    ensures ArchiveOk(Act(s, action))
  {
    if action.Keep? && action.id in s.calls && s.calls[action.id].phase.Emitted? {
      KeepKeepsArchiveOk(s, action.id);
    } else if action.Return? && IsExecuting(s, action.id) {
      ReturnKeepsArchiveOk(s, action.id, action.response);
    } else {
      OthersOnlyMoveMarkers(s, action);
      OnlyMarkersKeepsArchiveOk(s, Act(s, action));
    }
  }

  lemma SameArchive(a: EmissionRecords.Store, b: EmissionRecords.Store, customer: int, documents: seq<Document>)
    requires a.archive == b.archive
    ensures Stored(a, customer, documents) == Stored(b, customer, documents)
    ensures Absent(a, customer, documents) == Absent(b, customer, documents)
  {
  }

  /** Whatever happens afterwards, no archived document ever changes. */
  lemma {:induction false} ArchiveNeverChanges(s: System, actions: seq<Action>, key: DocKey)
    requires StoredXml(s.store, key).Some?
    ensures StoredXml(ActAll(s, actions).store, key) == StoredXml(s.store, key)
  {
    if actions != [] {
      var start := actions[..|actions| - 1];
      ArchiveNeverChanges(s, start, key);
      EntriesNeverChange(ActAll(s, start), actions[|actions| - 1]);
    }
  }

  lemma {:induction false} EveryRunKeepsArchiveOk(s: System, actions: seq<Action>)
    requires ArchiveOk(s) && AllFresh(s, actions)
    ensures ArchiveOk(ActAll(s, actions))
  {
    if actions != [] {
      var start := actions[..|actions| - 1];
      forall n | 0 <= n < |start| ensures FreshReturn(ActAll(s, start[..n]), start[n]) {
        assert start[..n] == actions[..n];
      }
      EveryRunKeepsArchiveOk(s, start);
      ActKeepsArchiveOk(ActAll(s, start), actions[|actions| - 1]);
    }
  }

  lemma {:induction false} RunKeepsHolders(s: System, actions: seq<Action>)
    requires HoldersOk(s)
    ensures HoldersOk(ActAll(s, actions))
  {
    if actions != [] {
      RunKeepsHolders(s, actions[..|actions| - 1]);
      ActKeepsHolders(ActAll(s, actions[..|actions| - 1]), actions[|actions| - 1]);
    }
  }

  lemma {:induction false} DoneIsForever(s: System, actions: seq<Action>, request: Request)
    requires HoldersOk(s) && request in s.store.markers && s.store.markers[request] != Running
    ensures request in ActAll(s, actions).store.markers
    ensures ActAll(s, actions).store.markers[request] == s.store.markers[request]
  {
    if actions != [] {
      var start := actions[..|actions| - 1];
      DoneIsForever(s, start, request);
      RunKeepsHolders(s, start);
      MarkerDiscipline(ActAll(s, start), actions[|actions| - 1], request);
    }
  }

  /** Once a request is done, every later replay yields the same response, and every document of
      that response is retrievable as it was emitted, for ever. */
  lemma RetryAgreesWithArchive(s: System, actions: seq<Action>, later: seq<Action>, request: Request)
    requires HoldersOk(s) && ArchiveOk(s) && AllFresh(s, actions)
    requires Replay(ActAll(s, actions).store, request).Ok?
    ensures var response := Replay(ActAll(s, actions).store, request).value;
            var end := ActAll(ActAll(s, actions), later);
            && Replay(end.store, request) == Ok(response)
            && forall d <- response.documents :: StoredXml(end.store, KeyOf(request.customer, d)) == Some(d.xml)
  {
    var middle := ActAll(s, actions);
    RunKeepsHolders(s, actions);
    EveryRunKeepsArchiveOk(s, actions);
    DoneIsForever(middle, later, request);
    var response := Replay(middle.store, request).value;
    forall d | d in response.documents
      ensures StoredXml(ActAll(middle, later).store, KeyOf(request.customer, d)) == Some(d.xml)
    {
      ArchiveNeverChanges(middle, later, KeyOf(request.customer, d));
    }
  }

  // ---------------------------------------------------------------- one call alone

  /** What one call does in the protocol when nothing comes in between. */
  function CallOf(id: int, request: Request, outcome: Outcome): seq<Action> {
    [Arrive(id, request), Start(id)]
    + match outcome
      case Returned(response) => [Return(id, response), Keep(id), Finish(id)]
      case Raised(fault) => [Raise(id, fault)]
  }

  lemma ActAllNext(s: System, actions: seq<Action>, action: Action)
    ensures ActAll(s, actions + [action]) == Act(ActAll(s, actions), action)
  {
    assert (actions + [action])[..|actions|] == actions;
    hide Act;
  }

  lemma StartsAlone(s: System, id: int, request: Request)
    requires id !in s.calls
    ensures var started := ActAll(s, [Arrive(id, request), Start(id)]);
            var free := request.key == "" || request !in s.store.markers;
            && id in started.calls && started.calls[id] == Call(request, if free then Executing(false) else Over)
            && started.store == if free && request.key != "" then Claim(s.store, request) else s.store
  {
    assert [] + [Arrive(id, request)] == [Arrive(id, request)] && [Arrive(id, request)] + [Start(id)] == [Arrive(id, request), Start(id)];
    ActAllNext(s, [], Arrive(id, request));
    ActAllNext(s, [Arrive(id, request)], Start(id));
  }

  lemma RaisesAlone(s: System, id: int, request: Request, fault: Fault)
    requires id in s.calls && s.calls[id].request == request
    ensures var over := Act(s, Raise(id, fault)).store;
            && (IsExecuting(s, id) && Protected(request) ==> over == CloseFailed(s.store, request, fault))
            && (!IsExecuting(s, id) || !Protected(request) ==> over == s.store)
  {
    hide Truncated;
  }

  lemma ReturnsAlone(s: System, id: int, request: Request, response: Response)
    requires id in s.calls && s.calls[id].request == request
    ensures var end := Act(Act(Act(s, Return(id, response)), Keep(id)), Finish(id)).store;
            var archived := Archive(s.store, request.customer, response.documents);
            && (!IsExecuting(s, id) && !s.calls[id].phase.Emitted? && !s.calls[id].phase.Archived? ==> end == s.store)
            && (IsExecuting(s, id) && archived.None? ==> end == s.store)
            && (IsExecuting(s, id) && archived.Some? ==>
                  end == if Protected(request) then Complete(archived.value, request, response) else archived.value)
  {
    hide Archive, Truncated;
  }

  /** One call alone is its run in the protocol, from every store: it leaves the same rows, and it
      executes exactly when the protocol lets it. */
  lemma RunAloneIsTheProtocol(s: System, id: int, request: Request, outcome: Outcome)
    requires id !in s.calls
    ensures var (after, _, executed) := RunAlone(s.store, request, outcome);
            && ActAll(s, CallOf(id, request, outcome)).store == after
            && (executed <==> IsExecuting(ActAll(s, [Arrive(id, request), Start(id)]), id))
  {
    StartsAlone(s, id, request);
    var start := [Arrive(id, request), Start(id)];
    var started := ActAll(s, start);
    hide Archive, Truncated, Act, ActAll;
    match outcome
    case Raised(fault) =>
      assert CallOf(id, request, outcome) == start + [Raise(id, fault)];
      ActAllNext(s, start, Raise(id, fault));
      RaisesAlone(started, id, request, fault);
    case Returned(response) =>
      assert CallOf(id, request, outcome) == start + [Return(id, response)] + [Keep(id)] + [Finish(id)];
      ActAllNext(s, start, Return(id, response));
      ActAllNext(s, start + [Return(id, response)], Keep(id));
      ActAllNext(s, start + [Return(id, response)] + [Keep(id)], Finish(id));
      ReturnsAlone(started, id, request, response);
  }
}
