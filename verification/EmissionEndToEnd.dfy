/**
 The allocator and the idempotent emission together: because no folio is delivered twice, what one
 emission archives is never in the way of another, and every retry agrees with the archive.
 */
module EmissionEndToEnd {
  import opened Wrappers
  import opened EmissionRecords
  import opened IdempotencyProtocol
  import FolioHistory
  import FolioStore

  /** The folios a run of the allocator delivered, and the call each was taken for. */
  datatype Ledger = Ledger(taken: seq<FolioHistory.Taken>, owners: seq<int>)

  predicate Paired(ledger: Ledger) {
    |ledger.owners| == |ledger.taken|
  }

  /** No folio was delivered twice. */
  ghost predicate IsLedger(ledger: Ledger) {
    && Paired(ledger)
    && forall i, j :: 0 <= i < |ledger.taken| && 0 <= j < |ledger.taken| && ledger.taken[i].key == ledger.taken[j].key ==> i == j
  }

  function FolioOf(key: DocKey): FolioStore.FolioKey {
    FolioStore.FolioKey(FolioStore.Account(key.customer, key.docType), key.folio)
  }

  ghost predicate TakenFor(ledger: Ledger, key: DocKey, id: int)
    requires Paired(ledger)
  {
    exists i :: 0 <= i < |ledger.taken| && ledger.taken[i].key == FolioOf(key) && ledger.owners[i] == id
  }

  lemma TakenForOne(ledger: Ledger, key: DocKey, v: int, w: int)
    requires IsLedger(ledger)
    ensures TakenFor(ledger, key, v) && TakenFor(ledger, key, w) ==> v == w
  {
  }

  /** The documents an emission returns bear different folios, each taken for that call. */
  ghost predicate Backed(ledger: Ledger, s: System, action: Action)
    requires Paired(ledger)
  {
    action.Return? && IsExecuting(s, action.id) ==>
      var customer := s.calls[action.id].request.customer;
      && KeysDistinct(customer, action.response.documents)
      && forall d <- action.response.documents :: TakenFor(ledger, KeyOf(customer, d), action.id)
  }

  ghost predicate AllBacked(ledger: Ledger, s: System, actions: seq<Action>)
    requires Paired(ledger)
  {
    forall n :: 0 <= n < |actions| ==> Backed(ledger, ActAll(s, actions[..n]), actions[n])
  }

  predicate IsPast(s: System, id: int) {
    id in s.calls && (s.calls[id].phase.Archived? || s.calls[id].phase.Over?)
  }

  /** What is emitted was taken for its call, and what is archived for a call that is past that. */
  ghost predicate Accounted(ledger: Ledger, s: System)
    requires Paired(ledger)
  {
    && (forall id <- s.calls :: s.calls[id].phase.Emitted? ==>
          forall d <- Documents(s.calls[id]) :: TakenFor(ledger, KeyOf(s.calls[id].request.customer, d), id))
    && (forall key <- s.store.archive :: exists id :: IsPast(s, id) && TakenFor(ledger, key, id))
  }

  /** So whatever a call returns is new. */
  lemma BackedIsFresh(ledger: Ledger, s: System, action: Action)
    requires IsLedger(ledger) && Accounted(ledger, s) && Backed(ledger, s, action)
    ensures FreshReturn(s, action)
  {
    assert Paired(ledger);
    hide IsLedger, TakenFor, KeysDistinct;
    if action.Return? && IsExecuting(s, action.id) {
      var id, customer, documents := action.id, s.calls[action.id].request.customer, action.response.documents;
      forall d | d in documents ensures KeyOf(customer, d) !in s.store.archive {
        forall past ensures TakenFor(ledger, KeyOf(customer, d), past) ==> past == id {
          TakenForOne(ledger, KeyOf(customer, d), past, id);
        }
      }
      forall j | j in s.calls && s.calls[j].phase.Emitted?
        ensures NoCommonKey(customer, documents, s.calls[j].request.customer, Documents(s.calls[j]))
      {
        forall x, y | x in documents && y in Documents(s.calls[j])
          ensures KeyOf(customer, x) != KeyOf(s.calls[j].request.customer, y)
        {
          TakenForOne(ledger, KeyOf(customer, x), id, j);
        }
      }
    }
  }

  /** Calls that are past stay past. */
  lemma PastStays(s: System, action: Action, id: int)
    requires IsPast(s, id)
    ensures IsPast(Act(s, action), id)
  {
    hide Archive;
  }

  /** What an action adds to the archive: the documents of the call it keeps, which is then past. */
  lemma ArchiveGrowsByKept(s: System, action: Action, key: DocKey)
    requires key in Act(s, action).store.archive && key !in s.store.archive
    ensures action.Keep? && action.id in s.calls && s.calls[action.id].phase.Emitted? && IsPast(Act(s, action), action.id)
    ensures exists d <- Documents(s.calls[action.id]) :: KeyOf(s.calls[action.id].request.customer, d) == key
  {
    if action.Keep? && action.id in s.calls && s.calls[action.id].phase.Emitted? {
      var call := s.calls[action.id];
      if Archive(s.store, call.request.customer, Documents(call)).Some? {
        ArchiveIsWriteOnce(s.store, call.request.customer, Documents(call));
      }
    }
    hide Archive;
  }

  lemma EmittedByReturn(s: System, action: Action, id: int)
    requires id in Act(s, action).calls && Act(s, action).calls[id].phase.Emitted?
    ensures id in s.calls && Act(s, action).calls[id].request == s.calls[id].request
    ensures Act(s, action).calls[id] == s.calls[id]
            || (action.Return? && action.id == id && IsExecuting(s, id)
                && Documents(Act(s, action).calls[id]) == action.response.documents)
  {
    hide Archive;
  }

  lemma ActKeepsAccounted(ledger: Ledger, s: System, action: Action)
    requires IsLedger(ledger) && Accounted(ledger, s) && Backed(ledger, s, action)
    ensures Accounted(ledger, Act(s, action))
  {
    assert Paired(ledger);
    hide IsLedger, TakenFor, Act, KeysDistinct;
    var after := Act(s, action);
    forall id | id in after.calls && after.calls[id].phase.Emitted?
      ensures forall d <- Documents(after.calls[id]) :: TakenFor(ledger, KeyOf(after.calls[id].request.customer, d), id)
    {
      EmittedByReturn(s, action, id);
    }
    forall key | key in after.store.archive ensures exists id :: IsPast(after, id) && TakenFor(ledger, key, id) {
      if key in s.store.archive {
        var id :| IsPast(s, id) && TakenFor(ledger, key, id);
        PastStays(s, action, id);
      } else {
        ArchiveGrowsByKept(s, action, key);
        assert TakenFor(ledger, key, action.id);
      }
    }
  }

  const NOTHING_YET := System(EmissionRecords.Store(map[], map[]), map[], [])

  lemma {:induction false} RunKeepsAccounted(ledger: Ledger, actions: seq<Action>, n: nat)
    requires IsLedger(ledger) && AllBacked(ledger, NOTHING_YET, actions) && n <= |actions|
    ensures Accounted(ledger, ActAll(NOTHING_YET, actions[..n]))
  {
    assert Paired(ledger);
    hide Act, IsLedger, TakenFor, Backed;
    if n == 0 {
      assert actions[..0] == [];
    } else {
      RunKeepsAccounted(ledger, actions, n - 1);
      assert actions[..n][..n - 1] == actions[..n - 1];
      ActKeepsAccounted(ledger, ActAll(NOTHING_YET, actions[..n - 1]), actions[n - 1]);
    }
  }

  /** End to end, from an empty store: however allocations, loads and retirements interleave, and
      however emissions interleave and die, as long as every emission numbers its documents with
      folios taken for it, once a request is done every later replay answers the same and each of
      its documents is retrievable as it was emitted, for ever. */
  lemma RetriesAgreeEndToEnd(
      db: FolioStore.Db, events: seq<FolioHistory.Event>, owners: seq<int>,
      actions: seq<Action>, later: seq<Action>, request: Request)
    requires FolioHistory.Sound(db) && |owners| == |FolioHistory.Run(db, events).1|
    requires AllBacked(Ledger(FolioHistory.Run(db, events).1, owners), NOTHING_YET, actions)
    ensures var store := ActAll(NOTHING_YET, actions).store;
            Replay(store, request).Ok? ==>
              var response, end := Replay(store, request).value, ActAll(ActAll(NOTHING_YET, actions), later);
              && Replay(end.store, request) == Ok(response)
              && forall d <- response.documents :: StoredXml(end.store, KeyOf(request.customer, d)) == Some(d.xml)
  {
    var ledger := Ledger(FolioHistory.Run(db, events).1, owners);
    LedgerOfRun(db, events, owners);
    NothingIsOk();
    assert Paired(ledger);
    hide IsLedger, Paired, Backed, FreshReturn, Act, HoldersOk, ArchiveOk, TakenFor;
    forall n | 0 <= n < |actions| ensures FreshReturn(ActAll(NOTHING_YET, actions[..n]), actions[n]) {
      RunKeepsAccounted(ledger, actions, n);
      BackedIsFresh(ledger, ActAll(NOTHING_YET, actions[..n]), actions[n]);
    }
    if Replay(ActAll(NOTHING_YET, actions).store, request).Ok? {
      RetryAgreesWithArchive(NOTHING_YET, actions, later, request);
    }
  }

  lemma NothingIsOk()
    ensures HoldersOk(NOTHING_YET) && ArchiveOk(NOTHING_YET)
  {
  }

  /** The deliveries of any run of the allocator are a ledger: no folio is in it twice. */
  lemma LedgerOfRun(db: FolioStore.Db, events: seq<FolioHistory.Event>, owners: seq<int>)
    requires FolioHistory.Sound(db) && |owners| == |FolioHistory.Run(db, events).1|
    ensures IsLedger(Ledger(FolioHistory.Run(db, events).1, owners))
  {
    hide FolioHistory.Sound, FolioHistory.Run;
    var taken := FolioHistory.Run(db, events).1;
    forall i: nat, j: nat | i < |taken| && j < |taken| && taken[i].key == taken[j].key ensures i == j {
      FolioHistory.DeliveredFoliosAreUnique(db, events, i, j);
    }
  }
}
