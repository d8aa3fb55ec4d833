/**
 Emission as the service runs it, over the tables of the allocator: every method ends as
 `EmissionEndings` says.
 */
module Emission {
  import opened Wrappers
  import opened FolioStore
  import opened FolioHistory
  import opened EmissionEndings
  import FolioService

  /** An upload that broke leaves its folios failed only when it certainly did not arrive. */
  method SendingOutcome(fault: Fault) returns (status: Status)
    ensures status == Failed <==> ProvesNotSent(fault)
    ensures status == Failed || status == Unknown
  {
    NeverSentExactly(fault);
    hide ProvesNotSent;
    var cause := Some(fault);
    while cause.Some?
      invariant NeverSent(fault) <==> cause.Some? && NeverSent(cause.value)
      decreases cause
    {
      if cause.value.kind == SiiAuth || cause.value.kind == ConnectTimeout {
        return Failed;
      }
      cause := cause.value.cause;
    }
    return Unknown;
  }

  /** Completes one document's references; stops at the first that cannot be resolved. */
  method ResolveOne(doc: Document, dtes: seq<Dte>, position: nat) returns (ok: bool, resolved: Dte)
    requires 1 <= position <= |dtes| && |dtes[position - 1].references| == |doc.references|
    requires forall r :: 0 <= r < |doc.references| ==> doc.references[r].batchIndex != Some(0)
    ensures ok <==> !DanglingIn(doc, position, |dtes|)
    ensures ok ==> ResolvedDte(doc, dtes[position - 1], resolved, dtes)
  {
    resolved := dtes[position - 1];
    ok := true;
    for r := 0 to |doc.references|
      invariant ok && |resolved.references| == |doc.references|
      invariant resolved == dtes[position - 1].(references := resolved.references)
      invariant forall m :: 0 <= m < r ==> !Dangling(doc.references[m], position, |dtes|)
      invariant forall m :: 0 <= m < r ==>
                  ResolvedReference(doc.references[m], dtes[position - 1].references[m], resolved.references[m], dtes)
      invariant forall m :: r <= m < |doc.references| ==> resolved.references[m] == dtes[position - 1].references[m]
    {
      var refIn := doc.references[r];
      if refIn.batchIndex.Some? {
        if refIn.batchIndex.value > |dtes| || refIn.batchIndex.value == position {
          assert Dangling(doc.references[r], position, |dtes|);
          ok := false;
          return;
        }
        var target := dtes[refIn.batchIndex.value - 1];
        resolved := resolved.(references := resolved.references[r :=
          Reference(target.docType, FolioText(target.folio), Some(target.issueDate))]);
      }
    }
  }

  /** Completes the references of the whole batch, once every document has its folio. */
  method ResolveBatchReferences(documents: seq<Document>, dtes: seq<Dte>) returns (ok: bool, resolved: seq<Dte>)
    requires |documents| == |dtes| && WellPositioned(documents)
    requires forall i :: 0 <= i < |dtes| ==> |dtes[i].references| == |documents[i].references|
    ensures ok <==> forall i :: 0 <= i < |documents| ==> !DanglingIn(documents[i], i + 1, |documents|)
    ensures ok ==> |resolved| == |dtes| &&
                   forall i :: 0 <= i < |dtes| ==> ResolvedDte(documents[i], dtes[i], resolved[i], dtes)
  {
    resolved := [];
    ok := true;
    for i := 0 to |documents|
      invariant ok && |resolved| == i
      invariant forall m :: 0 <= m < i ==> !DanglingIn(documents[m], m + 1, |documents|)
      invariant forall m :: 0 <= m < i ==> ResolvedDte(documents[m], dtes[m], resolved[m], dtes)
    {
      var dte: Dte;
      ok, dte := ResolveOne(documents[i], dtes, i + 1);
      if !ok {
        return;
      }
      resolved := resolved + [dte];
    }
  }

  /** Records one outcome on every folio of an emission, one commit each. */
  method MarkBatch(tables: FolioService.FolioTables, ghost before: Db, taken: seq<FolioKey>, status: Status)
    requires Sound(tables.Contents()) && Marked(before, tables.Contents(), taken, 0, status)
    modifies tables
    ensures tables.Contents() == MarkAll(old(tables.Contents()), taken, status)
    ensures Sound(tables.Contents()) && Settled(before, tables.Contents(), taken, status)
    ensures Valid(old(tables.Contents())) ==> Valid(tables.Contents())
  {
    hide ProvesNotSent, Sound, Valid, Marked;
    MarkAllSettles(before, tables.Contents(), taken, status);
    if Valid(tables.Contents()) {
      MarkAllKeepsValid(tables.Contents(), taken, status);
    }
    for m := 0 to |taken|
      invariant tables.Contents() == MarkAll(old(tables.Contents()), taken[..m], status)
    {
      assert taken[..m + 1][..m] == taken[..m];
      tables.MarkAssignment(taken[m], status);
    }
    assert taken[..|taken|] == taken;
  }

  /** Emits one document, and ends as the request, the tables and the rest of the system decide. The
      folio it took has its outcome, issued exactly when it returned, and no other folio moved. */
  method Issue(tables: FolioService.FolioTables, request: Request, outside: Outside, today: Date, requestId: string)
      returns (r: Result<Dte, Fault>, taken: seq<FolioKey>, uploaded: bool)
    requires Sound(tables.Contents())
    modifies tables
    ensures Ending(tables.Contents(), if r.Err? then Some(r.error) else None, taken, uploaded)
            == IssueEnding(old(tables.Contents()), request, outside, today, requestId)
    ensures r.Ok? <==> Acceptable(request.document) && HasFolio(old(tables.Contents()), request, today, requestId)
                       && Leaves(request.send, outside)
    ensures taken != [] <==> Acceptable(request.document) && HasFolio(old(tables.Contents()), request, today, requestId)
    ensures uploaded <==> taken != [] && outside.buildFault.None? && request.send
    ensures Sound(tables.Contents()) && (Valid(old(tables.Contents())) ==> Valid(tables.Contents()))
    ensures !Acceptable(request.document) ==> r.Err? && taken == [] && tables.Contents() == old(tables.Contents())
    ensures Settled(old(tables.Contents()), tables.Contents(), taken,
                    if r.Ok? then Issued else if uploaded && !ProvesNotSent(r.error) then Unknown else Failed)
    ensures r.Ok? ==> |taken| == 1 && taken[0] == FolioKey(Account(request.customer, r.value.docType), r.value.folio)
                      && r.value == DomainDte(request.document).(folio := r.value.folio)
                      && (request.folio != 0 ==> r.value.folio == request.folio)
  {
    hide ProvesNotSent, Sound, Valid, Marked, NextFolio, FolioStore.CafForReserved;
    taken, uploaded := [], false;
    ghost var before := tables.Contents();
    IssueSettles(before, request, outside, today, requestId);
    if Valid(before) {
      IssueKeepsValid(before, request, outside, today, requestId);
    }
    IssueEndsExactly(before, request, outside, today, requestId);
    FolioForTakes(before, request, today, requestId);
    var document := request.document;
    if !document.issuerMatches || document.contentFault.Some? {
      return Err(BAD_INPUT), taken, uploaded;
    }
    var dte := DomainDte(document);
    var account := Account(request.customer, document.docType);
    var folio := request.folio;
    if request.folio != 0 {
      var caf := tables.CafForReserved(FolioKey(account, request.folio));
      if caf.Err? {
        return Err(NO_FOLIO), taken, uploaded;
      }
    } else {
      var delivery := tables.NextFolio(account, today, requestId);
      if delivery.Err? {
        return Err(NO_FOLIO), taken, uploaded;
      }
      folio := delivery.value.folio;
    }
    taken := [FolioKey(account, folio)];
    dte := dte.(folio := folio);
    if outside.buildFault.Some? {
      MarkBatch(tables, before, taken, Failed);
      return Err(outside.buildFault.value), taken, uploaded;
    }
    if request.send {
      uploaded := true;
      if outside.uploadFault.Some? {
        NeverSentExactly(outside.uploadFault.value);
        var outcome := SendingOutcome(outside.uploadFault.value);
        MarkBatch(tables, before, taken, outcome);
        return Err(outside.uploadFault.value), taken, uploaded;
      }
    }
    MarkBatch(tables, before, taken, Issued);
    return Ok(dte), taken, uploaded;
  }

  function TypesOf(dtes: seq<Dte>): seq<int> {
    seq(|dtes|, i requires 0 <= i < |dtes| => dtes[i].docType)
  }

  /** Document `i` bears the folio `taken[i]`. */
  ghost predicate Numbered(customer: int, dtes: seq<Dte>, numbered: seq<Dte>, taken: seq<FolioKey>) {
    && |numbered| == |taken| <= |dtes|
    && forall i :: 0 <= i < |taken| ==>
         && numbered[i] == dtes[i].(folio := numbered[i].folio)
         && taken[i] == FolioKey(Account(customer, dtes[i].docType), numbered[i].folio)
  }

  /** Takes one folio per document, in order; stops at the first that cannot be had. */
  method TakeBatch(tables: FolioService.FolioTables, customer: int, dtes: seq<Dte>, today: Date, requestId: string)
      returns (ok: bool, numbered: seq<Dte>, taken: seq<FolioKey>)
    requires Sound(tables.Contents())
    modifies tables
    ensures Allocation(tables.Contents(), taken, ok) == AllocateAll(old(tables.Contents()), customer, TypesOf(dtes), today, requestId)
    ensures ok <==> |Run(old(tables.Contents()), AllocationEvents(customer, TypesOf(dtes), today, requestId)).1| == |dtes|
    ensures ok ==> taken == KeysOf(Run(old(tables.Contents()), AllocationEvents(customer, TypesOf(dtes), today, requestId)).1)
    ensures Sound(tables.Contents()) && (Valid(old(tables.Contents())) ==> Valid(tables.Contents()))
    ensures forall status :: Marked(old(tables.Contents()), tables.Contents(), taken, 0, status)
    ensures Numbered(customer, dtes, numbered, taken) && (ok <==> |taken| == |dtes|)
  {
    hide Run, Sound, Valid, Marked, AllocateAll;
    ghost var before := tables.Contents();
    ok, numbered, taken := TakeUntilNone(tables, customer, dtes, today, requestId);
    AllocationIsARun(before, customer, TypesOf(dtes), today, requestId);
    AllocationMarks(before, customer, TypesOf(dtes), today, requestId);
    if Valid(before) {
      AllocationKeepsValid(before, customer, TypesOf(dtes), today, requestId);
    }
  }

  method TakeUntilNone(tables: FolioService.FolioTables, customer: int, dtes: seq<Dte>, today: Date, requestId: string)
      returns (ok: bool, numbered: seq<Dte>, taken: seq<FolioKey>)
    modifies tables
    ensures Allocation(tables.Contents(), taken, ok) == AllocateAll(old(tables.Contents()), customer, TypesOf(dtes), today, requestId)
    ensures Numbered(customer, dtes, numbered, taken)
  {
    hide NextFolio;
    ghost var before := tables.Contents();
    ghost var docTypes := TypesOf(dtes);
    ok, numbered, taken := true, [], [];
    for i := 0 to |dtes|
      invariant AllocateAll(before, customer, docTypes[..i], today, requestId) == Allocation(tables.Contents(), taken, true)
      invariant ok && |taken| == i && Numbered(customer, dtes, numbered, taken)
    {
      assert docTypes[..i + 1][..i] == docTypes[..i];
      var account := Account(customer, dtes[i].docType);
      var delivery := tables.NextFolio(account, today, requestId);
      if delivery.Err? {
        ok := false;
        FailurePersists(before, customer, docTypes, today, requestId, i + 1);
        return;
      }
      numbered := numbered + [dtes[i].(folio := delivery.value.folio)];
      taken := taken + [FolioKey(account, delivery.value.folio)];
    }
    assert docTypes[..|docTypes|] == docTypes;
  }

  lemma AllocationMarks(db: Db, customer: int, docTypes: seq<int>, today: Date, requestId: string)
    requires Sound(db)
    ensures var a := AllocateAll(db, customer, docTypes, today, requestId);
            Sound(a.db) && forall status :: Marked(db, a.db, a.keys, 0, status)
  {
    hide ProvesNotSent, Sound, Valid, Marked, AllocateAll;
    AllocationTakes(db, customer, docTypes, today, requestId, Failed);
    forall status ensures Marked(db, AllocateAll(db, customer, docTypes, today, requestId).db,
                                 AllocateAll(db, customer, docTypes, today, requestId).keys, 0, status) {
      AllocationTakes(db, customer, docTypes, today, requestId, status);
    }
  }

  lemma FailurePersists(db: Db, customer: int, docTypes: seq<int>, today: Date, requestId: string, n: nat)
    requires n <= |docTypes| && !AllocateAll(db, customer, docTypes[..n], today, requestId).ok
    ensures AllocateAll(db, customer, docTypes, today, requestId) == AllocateAll(db, customer, docTypes[..n], today, requestId)
    decreases |docTypes| - n
  {
    hide NextFolio;
    if n == |docTypes| {
      assert docTypes[..n] == docTypes;
    } else {
      assert docTypes[..n + 1][..n] == docTypes[..n];
      FailurePersists(db, customer, docTypes, today, requestId, n + 1);
    }
  }

  /** Emits a batch in one envelope, and ends as the documents, the tables and the rest of the system
      decide. All the folios it took share one outcome, issued exactly when it returned, and no other
      folio moved. A document that is not acceptable, and nothing at all is touched; a reference that
      cannot be resolved, and every folio of the batch is spent. On success every batch reference
      carries the type, folio and date of the document at its position. */
  method IssueBatch(tables: FolioService.FolioTables, customer: int, documents: seq<Document>, send: bool,
                    outside: Outside, today: Date, requestId: string)
      returns (r: Result<seq<Dte>, Fault>, taken: seq<FolioKey>, uploaded: bool)
    requires Sound(tables.Contents()) && WellPositioned(documents)
    modifies tables
    ensures Ending(tables.Contents(), if r.Err? then Some(r.error) else None, taken, uploaded)
            == BatchEnding(old(tables.Contents()), customer, documents, send, outside, today, requestId)
    ensures r.Ok? <==> AllAcceptable(documents) && HasFolios(old(tables.Contents()), customer, documents, today, requestId)
                       && !AnyDangling(documents) && documents != [] && Leaves(send, outside)
    ensures uploaded <==> AllAcceptable(documents) && HasFolios(old(tables.Contents()), customer, documents, today, requestId)
                          && !AnyDangling(documents) && documents != [] && outside.buildFault.None? && send
    ensures AllAcceptable(documents) && HasFolios(old(tables.Contents()), customer, documents, today, requestId) ==>
              |taken| == |documents| && (r.Err? && r.error == BAD_REFERENCE <==> AnyDangling(documents))
    ensures Sound(tables.Contents()) && (Valid(old(tables.Contents())) ==> Valid(tables.Contents()))
    ensures !AllAcceptable(documents) ==> r.Err? && taken == [] && tables.Contents() == old(tables.Contents())
    ensures r.Ok? ==> EmittedBatch(customer, documents, r.value, taken)
    ensures Settled(old(tables.Contents()), tables.Contents(), taken,
                    if r.Ok? then Issued
                    else if uploaded && !ProvesNotSent(r.error) then Unknown else Failed)
  {
    hide ProvesNotSent, Sound, Valid, Marked, AllocateAll, Run, AnyDangling;
    taken, uploaded := [], false;
    ghost var before := tables.Contents();
    BatchSettles(before, customer, documents, send, outside, today, requestId);
    if Valid(before) {
      BatchKeepsValid(before, customer, documents, send, outside, today, requestId);
    }
    BatchEndsExactly(before, customer, documents, send, outside, today, requestId);
    var dtes: seq<Dte> := [];
    for i := 0 to |documents|
      invariant tables.Contents() == before
      invariant forall m :: 0 <= m < i ==> Acceptable(documents[m])
      invariant |dtes| == i && forall m :: 0 <= m < i ==> dtes[m] == DomainDte(documents[m])
    {
      if !documents[i].issuerMatches || documents[i].contentFault.Some? {
        assert documents[i] in documents && !Acceptable(documents[i]);
        return Err(BAD_INPUT), taken, uploaded;
      }
      dtes := dtes + [DomainDte(documents[i])];
    }
    assert AllAcceptable(documents);
    var ok;
    assert TypesOf(dtes) == DocTypes(documents);
    ok, dtes, taken := TakeBatch(tables, customer, dtes, today, requestId);
    if !ok {
      MarkBatch(tables, before, taken, Failed);
      return Err(NO_FOLIO), taken, uploaded;
    }
    ghost var numbered := dtes;
    ok, dtes := ResolveBatchReferences(documents, dtes);
    ResolvesExactly(documents);
    if !ok {
      MarkBatch(tables, before, taken, Failed);
      return Err(BAD_REFERENCE), taken, uploaded;
    }
    if |dtes| == 0 || outside.buildFault.Some? {
      MarkBatch(tables, before, taken, Failed);
      return Err(if |dtes| == 0 then NOTHING_TO_BUILD else outside.buildFault.value), taken, uploaded;
    }
    if send {
      uploaded := true;
      if outside.uploadFault.Some? {
        NeverSentExactly(outside.uploadFault.value);
        var outcome := SendingOutcome(outside.uploadFault.value);
        MarkBatch(tables, before, taken, outcome);
        return Err(outside.uploadFault.value), taken, uploaded;
      }
    }
    MarkBatch(tables, before, taken, Issued);
    ResolvedAgainstResolved(documents, numbered, dtes);
    return Ok(dtes), taken, uploaded;
  }

  lemma ResolvesExactly(documents: seq<Document>)
    ensures AnyDangling(documents) <==> !forall i :: 0 <= i < |documents| ==> !DanglingIn(documents[i], i + 1, |documents|)
  {
  }
}
