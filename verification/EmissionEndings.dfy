/**
 How an emission over the allocator can end: one document or a batch takes folios, is built, signed
 and uploaded, and leaves an outcome on every folio it took. Each ending is a function of the
 tables, the request and what the rest of the system answers.
 */
module EmissionEndings {
  import opened Wrappers
  import opened FolioStore
  import opened FolioHistory
  import Text

  // ---------------------------------------------------------------- what a failed upload means

  datatype FaultKind = BadInput | BadReference | NoFolio | SiiAuth | ConnectTimeout | OtherFault

  /** An exception and the exception it was raised from. */
  datatype Fault = Fault(kind: FaultKind, cause: Option<Fault>)

  /** What the service answers as an error in the data of the request. */
  predicate IsDataFault(fault: Fault) {
    fault.kind == BadInput || fault.kind == BadReference
  }

  /** What can go wrong outside this model; a reference that cannot be resolved is found inside. */
  type OutsideFault = f: Fault | f.kind != BadReference witness Fault(OtherFault, None)

  /** The chain proves the envelope never left: no token, or no connection. */
  predicate NeverSent(fault: Fault) {
    || fault.kind == SiiAuth
    || fault.kind == ConnectTimeout
    || (fault.cause.Some? && NeverSent(fault.cause.value))
  }

  /** How many exceptions the chain has. */
  function Length(fault: Fault): nat {
    1 + if fault.cause.Some? then Length(fault.cause.value) else 0
  }

  /** The `k`-th of them, from the one raised last. */
  function CauseAt(fault: Fault, k: nat): Fault
    requires k < Length(fault)
  {
    if k == 0 then fault else CauseAt(fault.cause.value, k - 1)
  }

  /** Somewhere in the chain the token was refused, or no connection was made. */
  predicate ProvesNotSent(fault: Fault) {
    exists k: nat :: k < Length(fault) && (CauseAt(fault, k).kind == SiiAuth || CauseAt(fault, k).kind == ConnectTimeout)
  }

  lemma {:induction false} NeverSentExactly(fault: Fault)
    ensures NeverSent(fault) <==> ProvesNotSent(fault)
  {
    if fault.cause.Some? {
      var cause := fault.cause.value;
      NeverSentExactly(cause);
      assert CauseAt(fault, 0) == fault;
      if ProvesNotSent(cause) {
        var k: nat :| k < Length(cause) && (CauseAt(cause, k).kind == SiiAuth || CauseAt(cause, k).kind == ConnectTimeout);
        assert CauseAt(fault, k + 1) == CauseAt(cause, k);
      }
      if ProvesNotSent(fault) {
        var k: nat :| k < Length(fault) && (CauseAt(fault, k).kind == SiiAuth || CauseAt(fault, k).kind == ConnectTimeout);
        assert k > 0 ==> CauseAt(fault, k) == CauseAt(cause, k - 1);
      }
    } else {
      assert CauseAt(fault, 0) == fault;
    }
  }

  // ---------------------------------------------------------------- what an emission leaves behind

  ghost predicate Distinct(keys: seq<FolioKey>) {
    forall i, j :: 0 <= i < j < |keys| ==> keys[i] != keys[j]
  }

  /** The emission took the folios `taken`: the first `m` have status `status`, the others are
      still assigned; no other folio's status moved, and nothing else was delivered. */
  ghost predicate Marked(before: Db, after: Db, taken: seq<FolioKey>, m: nat, status: Status) {
    && Distinct(taken)
    && after.assignments.Keys == before.assignments.Keys + (set k <- taken)
    && (forall i :: 0 <= i < |taken| ==> StatusOf(after, taken[i]) == if i < m then status else Assigned)
    && forall k <- before.assignments :: k !in taken ==> after.assignments[k] == before.assignments[k]
  }

  function StatusOf(db: Db, key: FolioKey): Status {
    if key in db.assignments then db.assignments[key].status else Unknown
  }

  /** Every folio of `taken` has outcome `status`, and nothing else moved. */
  ghost predicate Settled(before: Db, after: Db, taken: seq<FolioKey>, status: Status) {
    Marked(before, after, taken, |taken|, status)
  }

  lemma MarkOneMore(before: Db, db: Db, taken: seq<FolioKey>, m: nat, status: Status)
    requires m < |taken| && Marked(before, db, taken, m, status)
    ensures Marked(before, MarkAssignment(db, taken[m], status), taken, m + 1, status)
  {
    var after := MarkAssignment(db, taken[m], status);
    assert taken[m] in taken;
    assert after.assignments.Keys == db.assignments.Keys;
    forall i | 0 <= i < |taken| ensures StatusOf(after, taken[i]) == if i < m + 1 then status else Assigned {
      if i != m {
        assert taken[i] != taken[m];
      }
    }
  }

  // ---------------------------------------------------------------- requests

  /** A reference of a batch document: `batchIndex` (from 1) points at another document of the
      batch, and then the other three fields are derived from it. */
  datatype ReferenceIn = ReferenceIn(batchIndex: Option<nat>, docType: int, folio: string, date: Option<Date>)

  datatype Reference = Reference(docType: int, folio: string, date: Option<Date>)

  datatype Document = Document(
    docType: int,
    issueDate: Date,
    issuerMatches: bool,
    contentFault: Option<Fault>,
    references: seq<ReferenceIn>)

  datatype Dte = Dte(docType: int, folio: int, issueDate: Date, references: seq<Reference>)

  /** What the parts of the system outside this model answer: whether the envelope could be
      built, signed and validated, and how its upload went. */
  datatype Outside = Outside(buildFault: Option<OutsideFault>, uploadFault: Option<OutsideFault>)

  function DomainReferences(refs: seq<ReferenceIn>): seq<Reference> {
    seq(|refs|, i requires 0 <= i < |refs| => Reference(refs[i].docType, refs[i].folio, refs[i].date))
  }

  function DomainDte(doc: Document): Dte {
    Dte(doc.docType, 0, doc.issueDate, DomainReferences(doc.references))
  }

  predicate Acceptable(doc: Document) {
    doc.issuerMatches && doc.contentFault.None?
  }

  const BAD_INPUT := Fault(BadInput, None)
  const BAD_REFERENCE := Fault(BadReference, None)
  const NO_FOLIO := Fault(NoFolio, None)
  const NOTHING_TO_BUILD := Fault(OtherFault, None)

  /** A request to emit one document; `folio` is the one its caller reserved, 0 for none. */
  datatype Request = Request(customer: int, document: Document, folio: int, send: bool)


  // ---------------------------------------------------------------- references inside a batch

  /** A batch reference that cannot be resolved: out of the batch, or to its own document. */
  predicate Dangling(refIn: ReferenceIn, position: nat, size: nat) {
    refIn.batchIndex.Some? && (refIn.batchIndex.value > size || refIn.batchIndex.value == position)
  }

  ghost predicate ResolvedReference(refIn: ReferenceIn, before: Reference, after: Reference, dtes: seq<Dte>) {
    match refIn.batchIndex
    case None => after == before
    case Some(b) =>
      && 1 <= b <= |dtes|
      && after == Reference(dtes[b - 1].docType, FolioText(dtes[b - 1].folio), Some(dtes[b - 1].issueDate))
  }

  function FolioText(folio: int): string {
    if folio >= 0 then Text.Decimal(folio) else "-" + Text.Decimal(-folio)
  }

  /** Every batch reference of `doc` carries the type, folio and date of the document at its
      position; the others are as they came. */
  ghost predicate ResolvedDte(doc: Document, before: Dte, after: Dte, dtes: seq<Dte>) {
    && |doc.references| == |before.references| == |after.references|
    && after == before.(references := after.references)
    && forall r :: 0 <= r < |doc.references| ==>
         ResolvedReference(doc.references[r], before.references[r], after.references[r], dtes)
  }

  ghost predicate WellPositioned(documents: seq<Document>) {
    forall i, r :: 0 <= i < |documents| && 0 <= r < |documents[i].references| ==>
      documents[i].references[r].batchIndex != Some(0)
  }

  predicate DanglingIn(doc: Document, position: nat, size: nat) {
    exists r :: 0 <= r < |doc.references| && Dangling(doc.references[r], position, size)
  }

  // ---------------------------------------------------------------- recording outcomes

  /** Records one outcome on every folio, one after another. */
  function MarkAll(db: Db, taken: seq<FolioKey>, status: Status): Db {
    if taken == [] then db else MarkAssignment(MarkAll(db, taken[..|taken| - 1], status), taken[|taken| - 1], status)
  }

  lemma {:induction false} MarkFirst(before: Db, db: Db, taken: seq<FolioKey>, m: nat, status: Status)
    requires Sound(db) && Marked(before, db, taken, 0, status) && m <= |taken|
    ensures Sound(MarkAll(db, taken[..m], status)) && Marked(before, MarkAll(db, taken[..m], status), taken, m, status)
  {
    hide Sound, Marked;
    if m > 0 {
      MarkFirst(before, db, taken, m - 1, status);
      assert taken[..m][..m - 1] == taken[..m - 1];
      MarkOneMore(before, MarkAll(db, taken[..m - 1], status), taken, m - 1, status);
      MarkKeepsSound(MarkAll(db, taken[..m - 1], status), taken[m - 1], status);
    }
  }

  /** Then every folio taken has that outcome, and nothing else moved. */
  lemma MarkAllSettles(before: Db, db: Db, taken: seq<FolioKey>, status: Status)
    requires Sound(db) && Marked(before, db, taken, 0, status)
    ensures Sound(MarkAll(db, taken, status)) && Settled(before, MarkAll(db, taken, status), taken, status)
  {
    hide Sound, Marked;
    MarkFirst(before, db, taken, |taken|, status);
    assert taken[..|taken|] == taken;
  }

  /** Ranges that do not meet stay so. */
  lemma {:induction false} MarkAllKeepsValid(db: Db, taken: seq<FolioKey>, status: Status)
    requires Valid(db)
    ensures Valid(MarkAll(db, taken, status))
  {
    hide Valid;
    if taken != [] {
      MarkAllKeepsValid(db, taken[..|taken| - 1], status);
      MarkKeepsValid(MarkAll(db, taken[..|taken| - 1], status), taken[|taken| - 1], status);
    }
  }

  lemma TakeOneMore(before: Db, db: Db, after: Db, taken: seq<FolioKey>, key: FolioKey, requestId: string, status: Status)
    requires Marked(before, db, taken, 0, status)
    requires key !in db.assignments
    requires after.assignments == db.assignments[key := Assignment(requestId, Assigned)]
    ensures Marked(before, after, taken + [key], 0, status)
  {
    var all := taken + [key];
    assert (set k <- all) == (set k <- taken) + {key};
    forall i | 0 <= i < |taken| ensures all[i] != key && StatusOf(after, all[i]) == StatusOf(db, taken[i]) {
      assert taken[i] in taken;
    }
  }

  lemma HoldingOne(db: Db, key: FolioKey, status: Status)
    requires key in db.assignments && db.assignments[key].status == Assigned
    ensures Marked(db, db, [key], 0, status)
  {
    assert (set k <- [key]) == {key};
  }

  lemma ReservingTakes(db: Db, key: FolioKey, status: Status)
    requires Sound(db) && CafForReserved(db, key).Ok?
    ensures Marked(db, db, [key], 0, status)
  {
    hide Sound, CafForReserved;
    ReservedExactly(db, key);
    HoldingOne(db, key, status);
  }

  lemma NothingTaken(db: Db, status: Status)
    ensures Marked(db, db, [], 0, status)
  {
  }

  lemma SameAssignmentsSameMarks(before: Db, db: Db, after: Db, taken: seq<FolioKey>, status: Status)
    requires Marked(before, db, taken, 0, status) && after.assignments == db.assignments
    ensures Marked(before, after, taken, 0, status)
  {
  }

  // ---------------------------------------------------------------- taking folios

  function AllocationEvents(customer: int, docTypes: seq<int>, today: Date, requestId: string): (events: seq<Event>)
    ensures |events| == |docTypes|
    ensures forall i :: 0 <= i < |docTypes| ==> events[i] == Take(Account(customer, docTypes[i]), today, requestId)
  {
    seq(|docTypes|, i requires 0 <= i < |docTypes| => Take(Account(customer, docTypes[i]), today, requestId))
  }

  /** Allocations one after another, up to the first that delivers nothing. */
  datatype Allocation = Allocation(db: Db, keys: seq<FolioKey>, ok: bool)

  function AllocateAll(db: Db, customer: int, docTypes: seq<int>, today: Date, requestId: string): Allocation {
    if docTypes == [] then Allocation(db, [], true)
    else
      var n := |docTypes| - 1;
      var before := AllocateAll(db, customer, docTypes[..n], today, requestId);
      if !before.ok then before
      else
        var account := Account(customer, docTypes[n]);
        var (after, r) := NextFolio(before.db, account, today, requestId);
        if r.Ok? then Allocation(after, before.keys + [FolioKey(account, r.value.folio)], true)
        else Allocation(after, before.keys, false)
  }

  function KeysOf(taken: seq<Taken>): (r: seq<FolioKey>)
    ensures |r| == |taken| && forall i :: 0 <= i < |taken| ==> r[i] == taken[i].key
  {
    seq(|taken|, i requires 0 <= i < |taken| => taken[i].key)
  }

  /** It succeeds exactly when the run of all those allocations delivers a folio for each, and then
      it is that run. */
  lemma {:induction false} AllocationIsARun(db: Db, customer: int, docTypes: seq<int>, today: Date, requestId: string)
    ensures var a := AllocateAll(db, customer, docTypes, today, requestId);
            var (after, taken) := Run(db, AllocationEvents(customer, docTypes, today, requestId));
            && |taken| <= |docTypes| && |a.keys| <= |docTypes|
            && (a.ok <==> |taken| == |docTypes|) && (a.ok <==> |a.keys| == |docTypes|)
            && (a.ok ==> a.db == after && a.keys == KeysOf(taken))
  {
    hide NextFolio;
    if docTypes != [] {
      var n := |docTypes| - 1;
      AllocationIsARun(db, customer, docTypes[..n], today, requestId);
      var events := AllocationEvents(customer, docTypes, today, requestId);
      var before, start := AllocateAll(db, customer, docTypes[..n], today, requestId), Run(db, events[..n]);
      assert events[..n] == AllocationEvents(customer, docTypes[..n], today, requestId);
      assert events[n] == Take(Account(customer, docTypes[n]), today, requestId);
      assert Run(db, events) == (Step(start.0, events[n]).0, start.1 + Step(start.0, events[n]).1);
      hide Run;
      if before.ok {
        assert KeysOf(start.1 + Step(start.0, events[n]).1) == KeysOf(start.1) + KeysOf(Step(start.0, events[n]).1);
      }
    }
  }

  /** The folios allocated are new, distinct and still without outcome; nothing else moved. */
  lemma {:induction false} AllocationTakes(db: Db, customer: int, docTypes: seq<int>, today: Date, requestId: string, status: Status)
    requires Sound(db)
    ensures var a := AllocateAll(db, customer, docTypes, today, requestId);
            && Sound(a.db) && Marked(db, a.db, a.keys, 0, status)
            && forall i :: 0 <= i < |a.keys| && i < |docTypes| ==> a.keys[i].account == Account(customer, docTypes[i])
  {
    hide Sound, Marked, NextFolio;
    if docTypes == [] {
      NothingTaken(db, status);
    } else {
      var n := |docTypes| - 1;
      AllocationTakes(db, customer, docTypes[..n], today, requestId, status);
      AllocationIsARun(db, customer, docTypes[..n], today, requestId);
      var before := AllocateAll(db, customer, docTypes[..n], today, requestId);
      if before.ok {
        var account := Account(customer, docTypes[n]);
        var (after, r) := NextFolio(before.db, account, today, requestId);
        TakeKeepsSound(before.db, account, today, requestId);
        if r.Ok? {
          TakeOneMore(db, before.db, after, before.keys, FolioKey(account, r.value.folio), requestId, status);
        } else {
          SameAssignmentsSameMarks(db, before.db, after, before.keys, status);
        }
      }
    }
  }

  lemma {:induction false} AllocationKeepsValid(db: Db, customer: int, docTypes: seq<int>, today: Date, requestId: string)
    requires Valid(db)
    ensures Valid(AllocateAll(db, customer, docTypes, today, requestId).db)
  {
    hide Valid, NextFolio;
    if docTypes != [] {
      var n := |docTypes| - 1;
      AllocationKeepsValid(db, customer, docTypes[..n], today, requestId);
      TakeKeepsValid(AllocateAll(db, customer, docTypes[..n], today, requestId).db, Account(customer, docTypes[n]), today, requestId);
    }
  }

  // ---------------------------------------------------------------- endings

  /** The tables an emission leaves, what it raised if anything, the folios it took, and whether the
      envelope was sent out. */
  datatype Ending = Ending(db: Db, fault: Option<Fault>, taken: seq<FolioKey>, uploaded: bool)

  /** The outcome of its folios. */
  function Outcome(e: Ending): Status {
    if e.fault.None? then Issued else if e.uploaded && !NeverSent(e.fault.value) then Unknown else Failed
  }

  /** With its folios taken: what stops it before the upload, if anything, and then the upload. */
  function Conclude(db: Db, taken: seq<FolioKey>, early: Option<Fault>, send: bool, uploadFault: Option<Fault>): Ending {
    var e := if early.Some? then Ending(db, early, taken, false)
             else Ending(db, if send then uploadFault else None, taken, send);
    e.(db := MarkAll(db, taken, Outcome(e)))
  }

  lemma ConclusionSettles(before: Db, db: Db, taken: seq<FolioKey>, early: Option<Fault>, send: bool, uploadFault: Option<Fault>)
    requires Sound(db) && forall status :: Marked(before, db, taken, 0, status)
    ensures var e := Conclude(db, taken, early, send, uploadFault);
            Sound(e.db) && Settled(before, e.db, e.taken, Outcome(e)) && e.taken == taken
  {
    hide Sound, Marked;
    MarkAllSettles(before, db, taken, Outcome(Conclude(db, taken, early, send, uploadFault)));
  }

  // ---------------------------------------------------------------- one document

  function KeyOf(request: Request): FolioKey {
    FolioKey(Account(request.customer, request.document.docType), request.folio)
  }

  /** The folio of one document: the one its caller reserved, or the next of the allocator. */
  function FolioFor(db: Db, request: Request, today: Date, requestId: string): Allocation {
    if request.folio != 0 then
      if CafForReserved(db, KeyOf(request)).Ok? then Allocation(db, [KeyOf(request)], true) else Allocation(db, [], false)
    else
      var account := Account(request.customer, request.document.docType);
      var (after, r) := NextFolio(db, account, today, requestId);
      if r.Ok? then Allocation(after, [FolioKey(account, r.value.folio)], true) else Allocation(after, [], false)
  }

  /** How the emission of one document ends. */
  function IssueEnding(db: Db, request: Request, outside: Outside, today: Date, requestId: string): Ending {
    if !Acceptable(request.document) then Ending(db, Some(BAD_INPUT), [], false)
    else
      var a := FolioFor(db, request, today, requestId);
      if !a.ok then Ending(a.db, Some(NO_FOLIO), [], false)
      else Conclude(a.db, a.keys, outside.buildFault, request.send, outside.uploadFault)
  }

  /** A folio can be had: the reserved one is delivered and without outcome, or the allocator has one. */
  predicate HasFolio(db: Db, request: Request, today: Date, requestId: string) {
    if request.folio != 0 then CafForReserved(db, KeyOf(request)).Ok?
    else NextFolio(db, Account(request.customer, request.document.docType), today, requestId).1.Ok?
  }

  predicate Leaves(send: bool, outside: Outside) {
    outside.buildFault.None? && (!send || outside.uploadFault.None?)
  }

  /** It returns, takes its folio and uploads exactly when it should; the folio is the one reserved,
      or the one the allocator delivers. */
  lemma IssueEndsExactly(db: Db, request: Request, outside: Outside, today: Date, requestId: string)
    ensures var e := IssueEnding(db, request, outside, today, requestId);
            var had := Acceptable(request.document) && HasFolio(db, request, today, requestId);
            && (e.fault.None? <==> had && Leaves(request.send, outside))
            && |e.taken| == (if had then 1 else 0)
            && (had ==> e.taken[0].account == Account(request.customer, request.document.docType)
                        && (request.folio != 0 ==> e.taken[0].folio == request.folio))
            && (e.uploaded <==> had && outside.buildFault.None? && request.send)
            && (e.fault.Some? ==> e.fault == if !Acceptable(request.document) then Some(BAD_INPUT)
                                             else if !had then Some(NO_FOLIO)
                                             else if outside.buildFault.Some? then outside.buildFault
                                             else outside.uploadFault)
  {
    hide NextFolio, CafForReserved;
  }

  lemma FolioForTakes(db: Db, request: Request, today: Date, requestId: string)
    requires Sound(db)
    ensures var a := FolioFor(db, request, today, requestId);
            Sound(a.db) && forall status :: Marked(db, a.db, a.keys, 0, status)
  {
    hide Sound, Marked, NextFolio, CafForReserved;
    var account := Account(request.customer, request.document.docType);
    var a := FolioFor(db, request, today, requestId);
    var (after, r) := NextFolio(db, account, today, requestId);
    TakeKeepsSound(db, account, today, requestId);
    forall status ensures Marked(db, a.db, a.keys, 0, status) {
      NothingTaken(db, status);
      if request.folio != 0 && a.ok {
        ReservingTakes(db, KeyOf(request), status);
      } else if request.folio == 0 && r.Ok? {
        TakeOneMore(db, db, after, [], FolioKey(account, r.value.folio), requestId, status);
        assert [] + [FolioKey(account, r.value.folio)] == a.keys;
      } else if request.folio == 0 {
        SameAssignmentsSameMarks(db, db, after, [], status);
      }
    }
  }

  /** However it ends, the folio it took has the outcome of the emission, issued exactly when it
      returned, and no other folio moved. */
  lemma IssueSettles(db: Db, request: Request, outside: Outside, today: Date, requestId: string)
    requires Sound(db)
    ensures var e := IssueEnding(db, request, outside, today, requestId);
            && Sound(e.db) && Settled(db, e.db, e.taken, Outcome(e))
            && (Outcome(e) == Issued <==> e.fault.None?)
  {
    var a := FolioFor(db, request, today, requestId);
    FolioForTakes(db, request, today, requestId);
    NothingTaken(db, Failed);
    hide Sound, Marked, NextFolio, CafForReserved;
    assert !a.ok ==> a.keys == [];
    hide FolioFor;
    if Acceptable(request.document) && a.ok {
      ConclusionSettles(db, a.db, a.keys, outside.buildFault, request.send, outside.uploadFault);
    } else if Acceptable(request.document) {
      assert Marked(db, a.db, [], 0, Failed);
    }
  }

  lemma IssueKeepsValid(db: Db, request: Request, outside: Outside, today: Date, requestId: string)
    requires Valid(db)
    ensures Valid(IssueEnding(db, request, outside, today, requestId).db)
  {
    hide Valid, NextFolio, CafForReserved;
    var a := FolioFor(db, request, today, requestId);
    TakeKeepsValid(db, Account(request.customer, request.document.docType), today, requestId);
    forall status ensures Valid(MarkAll(a.db, a.keys, status)) {
      MarkAllKeepsValid(a.db, a.keys, status);
    }
  }

  // ---------------------------------------------------------------- a batch in one envelope

  predicate AllAcceptable(documents: seq<Document>) {
    forall d <- documents :: Acceptable(d)
  }

  predicate AnyDangling(documents: seq<Document>) {
    exists i :: 0 <= i < |documents| && DanglingIn(documents[i], i + 1, |documents|)
  }

  function DocTypes(documents: seq<Document>): (r: seq<int>)
    ensures |r| == |documents| && forall i :: 0 <= i < |documents| ==> r[i] == documents[i].docType
  {
    seq(|documents|, i requires 0 <= i < |documents| => documents[i].docType)
  }

  /** What stops a batch that has its folios before it is sent: an empty batch has no first document
      to build from. */
  function EarlyFault(documents: seq<Document>, outside: Outside): Option<Fault> {
    if AnyDangling(documents) then Some(BAD_REFERENCE)
    else if documents == [] then Some(NOTHING_TO_BUILD)
    else outside.buildFault
  }

  /** How the emission of a batch ends. */
  function BatchEnding(db: Db, customer: int, documents: seq<Document>, send: bool, outside: Outside, today: Date, requestId: string)
    : Ending
  {
    if !AllAcceptable(documents) then Ending(db, Some(BAD_INPUT), [], false)
    else
      var a := AllocateAll(db, customer, DocTypes(documents), today, requestId);
      if !a.ok then Conclude(a.db, a.keys, Some(NO_FOLIO), send, outside.uploadFault)
      else Conclude(a.db, a.keys, EarlyFault(documents, outside), send, outside.uploadFault)
  }

  /** The allocator has a folio for every document: the run of those allocations delivers them all. */
  predicate HasFolios(db: Db, customer: int, documents: seq<Document>, today: Date, requestId: string) {
    |Run(db, AllocationEvents(customer, DocTypes(documents), today, requestId)).1| == |documents|
  }

  /** It returns, takes its folios and uploads exactly when it should; the folios are those the
      allocator delivers to its documents, in order. */
  lemma BatchEndsExactly(db: Db, customer: int, documents: seq<Document>, send: bool, outside: Outside, today: Date, requestId: string)
    ensures var e := BatchEnding(db, customer, documents, send, outside, today, requestId);
            var had := AllAcceptable(documents) && HasFolios(db, customer, documents, today, requestId);
            var whole := had && !AnyDangling(documents) && documents != [];
            && (e.fault.None? <==> whole && Leaves(send, outside))
            && (had ==> e.taken == KeysOf(Run(db, AllocationEvents(customer, DocTypes(documents), today, requestId)).1))
            && (AllAcceptable(documents) && !had ==> |e.taken| < |documents|)
            && (!AllAcceptable(documents) ==> e.taken == [])
            && (e.uploaded <==> whole && outside.buildFault.None? && send)
  {
    AllocationIsARun(db, customer, DocTypes(documents), today, requestId);
    hide AllocateAll, Run, AnyDangling, AllAcceptable;
  }

  /** However it ends, all the folios it took share the outcome of the emission, issued exactly when
      it returned, and no other folio moved. */
  lemma BatchSettles(db: Db, customer: int, documents: seq<Document>, send: bool, outside: Outside, today: Date, requestId: string)
    requires Sound(db)
    ensures var e := BatchEnding(db, customer, documents, send, outside, today, requestId);
            && Sound(e.db) && Settled(db, e.db, e.taken, Outcome(e))
            && (Outcome(e) == Issued <==> e.fault.None?)
  {
    hide Sound, Marked, AllocateAll, AnyDangling;
    if AllAcceptable(documents) {
      var a := AllocateAll(db, customer, DocTypes(documents), today, requestId);
      AllocationTakes(db, customer, DocTypes(documents), today, requestId, Failed);
      forall status ensures Marked(db, a.db, a.keys, 0, status) {
        AllocationTakes(db, customer, DocTypes(documents), today, requestId, status);
      }
      ConclusionSettles(db, a.db, a.keys, Some(NO_FOLIO), send, outside.uploadFault);
      ConclusionSettles(db, a.db, a.keys, EarlyFault(documents, outside), send, outside.uploadFault);
    } else {
      NothingTaken(db, Failed);
    }
  }

  /** A batch that was uploaded can only have failed in the upload. */
  lemma BatchFaults(db: Db, customer: int, documents: seq<Document>, send: bool, outside: Outside, today: Date, requestId: string)
    ensures var e := BatchEnding(db, customer, documents, send, outside, today, requestId);
            e.uploaded ==> e.fault == outside.uploadFault
  {
    hide AllocateAll, MarkAll;
  }

  lemma BatchKeepsValid(db: Db, customer: int, documents: seq<Document>, send: bool, outside: Outside, today: Date, requestId: string)
    requires Valid(db)
    ensures Valid(BatchEnding(db, customer, documents, send, outside, today, requestId).db)
  {
    hide Valid, AllocateAll;
    var a := AllocateAll(db, customer, DocTypes(documents), today, requestId);
    AllocationKeepsValid(db, customer, DocTypes(documents), today, requestId);
    forall status ensures Valid(MarkAll(a.db, a.keys, status)) {
      MarkAllKeepsValid(a.db, a.keys, status);
    }
  }

  /** A batch whose documents are acceptable and whose folios can all be had ends with its reference
      error, all its folios spent and nothing uploaded, exactly when some reference dangles. */
  lemma DanglingSpendsExactly(db: Db, customer: int, documents: seq<Document>, send: bool, outside: Outside, today: Date, requestId: string)
    requires Sound(db) && AllAcceptable(documents) && HasFolios(db, customer, documents, today, requestId)
    ensures var e := BatchEnding(db, customer, documents, send, outside, today, requestId);
            AnyDangling(documents) <==>
              && e.fault == Some(BAD_REFERENCE) && !e.uploaded && |e.taken| == |documents|
              && Settled(db, e.db, e.taken, Failed)
  {
    BatchEndsExactly(db, customer, documents, send, outside, today, requestId);
    BatchSettles(db, customer, documents, send, outside, today, requestId);
    AllocationIsARun(db, customer, DocTypes(documents), today, requestId);
    hide Sound, Marked, AllocateAll, Run, AnyDangling, MarkAll;
  }

  predicate HasBadData(documents: seq<Document>) {
    !AllAcceptable(documents) || AnyDangling(documents)
  }

  /** The first document would get a folio. */
  predicate FirstHasFolio(db: Db, customer: int, documents: seq<Document>, today: Date, requestId: string) {
    documents != [] && NextFolio(db, Account(customer, documents[0].docType), today, requestId).1.Ok?
  }

  lemma {:induction false} AllocatesFirstExactly(db: Db, customer: int, docTypes: seq<int>, today: Date, requestId: string)
    ensures AllocateAll(db, customer, docTypes, today, requestId).keys != [] <==>
            docTypes != [] && NextFolio(db, Account(customer, docTypes[0]), today, requestId).1.Ok?
  {
    hide NextFolio;
    if |docTypes| > 1 {
      AllocatesFirstExactly(db, customer, docTypes[..|docTypes| - 1], today, requestId);
      AllocationIsARun(db, customer, docTypes[..|docTypes| - 1], today, requestId);
    } else if |docTypes| == 1 {
      assert docTypes[..0] == [];
    }
  }

  /** A batch with bad data should burn no folio. It burns some exactly when the bad data is in its
      references alone, which are resolved only after the folios were taken, and there was a folio
      to take. */
  lemma BadDataBurnsExactly(db: Db, customer: int, documents: seq<Document>, send: bool, outside: Outside, today: Date, requestId: string)
    requires HasBadData(documents)
    ensures BatchEnding(db, customer, documents, send, outside, today, requestId).taken != [] <==>
            AllAcceptable(documents) && FirstHasFolio(db, customer, documents, today, requestId)
  {
    AllocatesFirstExactly(db, customer, DocTypes(documents), today, requestId);
    hide AllocateAll, AnyDangling, NextFolio, MarkAll;
  }

  const TO_ITSELF := ReferenceIn(Some(1), 0, "", None)

  /** The smallest such batch: one acceptable document that refers to its own position. Its folio,
      if there is one, is spent, failed, and the answer is a data error. */
  lemma SelfReferenceSpends(db: Db, customer: int, docType: int, issueDate: Date, send: bool, outside: Outside, today: Date, requestId: string)
    requires Sound(db)
    ensures var e := BatchEnding(db, customer, [Document(docType, issueDate, true, None, [TO_ITSELF])], send, outside, today, requestId);
            var r := NextFolio(db, Account(customer, docType), today, requestId).1;
            r.Ok? ==>
              && e.fault.Some? && IsDataFault(e.fault.value) && !e.uploaded
              && e.taken == [FolioKey(Account(customer, docType), r.value.folio)]
              && e.taken[0] in e.db.assignments && e.db.assignments[e.taken[0]].status == Failed
  {
    hide NextFolio, Sound;
    var documents := [Document(docType, issueDate, true, None, [TO_ITSELF])];
    assert DocTypes(documents)[..0] == [];
    assert AllocateAll(db, customer, DocTypes(documents)[..0], today, requestId) == Allocation(db, [], true);
    assert DanglingIn(documents[0], 0 + 1, |documents|) by {
      assert Dangling(documents[0].references[0], 1, 1);
    }
    BatchSettles(db, customer, documents, send, outside, today, requestId);
    var e := BatchEnding(db, customer, documents, send, outside, today, requestId);
    if NextFolio(db, Account(customer, docType), today, requestId).1.Ok? {
      assert e.taken == AllocateAll(db, customer, DocTypes(documents), today, requestId).keys && |e.taken| == 1;
      assert StatusOf(e.db, e.taken[0]) == Failed && e.taken[0] in (set k <- e.taken);
    }
  }

  /** The batch as it is emitted: document `i` with folio `taken[i]`, its references resolved. */
  ghost predicate EmittedBatch(customer: int, documents: seq<Document>, dtes: seq<Dte>, taken: seq<FolioKey>) {
    && |dtes| == |documents| == |taken|
    && forall i :: 0 <= i < |documents| ==>
         && taken[i] == FolioKey(Account(customer, documents[i].docType), dtes[i].folio)
         && ResolvedDte(documents[i], DomainDte(documents[i]).(folio := dtes[i].folio), dtes[i], dtes)
  }

  /** Resolving references changes no type, folio or date, so a reference that names a document
      of the numbered batch names the same document of the resolved one. */
  lemma ResolvedAgainstResolved(documents: seq<Document>, numbered: seq<Dte>, dtes: seq<Dte>)
    requires |documents| == |numbered| == |dtes|
    requires forall i :: 0 <= i < |dtes| ==> ResolvedDte(documents[i], numbered[i], dtes[i], numbered)
    ensures forall i :: 0 <= i < |dtes| ==> ResolvedDte(documents[i], numbered[i], dtes[i], dtes)
  {
    forall i | 0 <= i < |dtes| ensures ResolvedDte(documents[i], numbered[i], dtes[i], dtes) {
      forall r | 0 <= r < |documents[i].references|
        ensures ResolvedReference(documents[i].references[r], numbered[i].references[r], dtes[i].references[r], dtes)
      {
        var b := documents[i].references[r].batchIndex;
        assert ResolvedReference(documents[i].references[r], numbered[i].references[r], dtes[i].references[r], numbered);
        if b.Some? {
          assert ResolvedDte(documents[b.value - 1], numbered[b.value - 1], dtes[b.value - 1], numbered);
        }
      }
    }
  }

  // ---------------------------------------------------------------- endings, folio by folio

  /** Every folio taken was delivered and has that status. */
  ghost predicate AllAre(db: Db, taken: seq<FolioKey>, status: Status) {
    forall key <- taken :: key in db.assignments && db.assignments[key].status == status
  }

  lemma SettledAreAll(before: Db, after: Db, taken: seq<FolioKey>, status: Status)
    requires Settled(before, after, taken, status)
    ensures AllAre(after, taken, status)
  {
    forall key | key in taken ensures key in after.assignments && after.assignments[key].status == status {
      assert key in (set k <- taken);
      var i :| 0 <= i < |taken| && taken[i] == key;
      assert StatusOf(after, taken[i]) == status;
    }
  }

  /** Exactly what happened to the folios of an emission: issued when it returned; failed when it broke
      before the upload, or in one that certainly did not arrive; unknown when the upload may have. */
  ghost predicate FoliosTell(db: Db, taken: seq<FolioKey>, uploaded: bool, fault: Option<Fault>) {
    && (fault.None? ==> AllAre(db, taken, Issued))
    && (fault.Some? && !uploaded ==> AllAre(db, taken, Failed))
    && (fault.Some? && uploaded && ProvesNotSent(fault.value) ==> AllAre(db, taken, Failed))
    && (fault.Some? && uploaded && !ProvesNotSent(fault.value) ==> AllAre(db, taken, Unknown))
  }

  lemma SettledFoliosTell(before: Db, e: Ending)
    requires Settled(before, e.db, e.taken, Outcome(e))
    ensures FoliosTell(e.db, e.taken, e.uploaded, e.fault)
  {
    SettledAreAll(before, e.db, e.taken, Outcome(e));
    if e.fault.Some? {
      NeverSentExactly(e.fault.value);
    }
    hide AllAre, NeverSent, ProvesNotSent, Marked;
  }

  lemma IssueFoliosTell(db: Db, request: Request, outside: Outside, today: Date, requestId: string)
    requires Sound(db)
    ensures var e := IssueEnding(db, request, outside, today, requestId);
            FoliosTell(e.db, e.taken, e.uploaded, e.fault) && |e.taken| <= 1
  {
    IssueSettles(db, request, outside, today, requestId);
    IssueEndsExactly(db, request, outside, today, requestId);
    hide Sound, Marked, IssueEnding, Outcome;
    SettledFoliosTell(db, IssueEnding(db, request, outside, today, requestId));
  }

  lemma BatchFoliosTell(db: Db, customer: int, documents: seq<Document>, send: bool, outside: Outside, today: Date, requestId: string)
    requires Sound(db)
    ensures var e := BatchEnding(db, customer, documents, send, outside, today, requestId);
            FoliosTell(e.db, e.taken, e.uploaded, e.fault)
  {
    BatchSettles(db, customer, documents, send, outside, today, requestId);
    hide Sound, Marked, BatchEnding, Outcome;
    SettledFoliosTell(db, BatchEnding(db, customer, documents, send, outside, today, requestId));
  }

  /** What a batch that does not return raises: bad data before anything is taken; no folio; a reference
      that dangles; what kept it from being built; what happened in the upload. */
  lemma BatchFaultsExactly(db: Db, customer: int, documents: seq<Document>, send: bool, outside: Outside, today: Date, requestId: string)
    ensures var fault := BatchEnding(db, customer, documents, send, outside, today, requestId).fault;
            if !AllAcceptable(documents) then fault == Some(BAD_INPUT)
            else if !HasFolios(db, customer, documents, today, requestId) then fault == Some(NO_FOLIO)
            else if AnyDangling(documents) then fault == Some(BAD_REFERENCE)
            else if documents == [] then fault == Some(NOTHING_TO_BUILD)
            else if outside.buildFault.Some? then fault == outside.buildFault
            else fault == if send then outside.uploadFault else None
  {
    AllocationIsARun(db, customer, DocTypes(documents), today, requestId);
    hide AllocateAll, Run, AnyDangling, AllAcceptable, MarkAll;
  }

  /** The document is its customer's and its content is valid. */
  predicate GoodContent(doc: Document) {
    doc.issuerMatches && doc.contentFault == None
  }

  /** A document that is another issuer's or whose content is not valid leaves every table as it was, alone
      or with others in a batch; with none such, whatever folios there are get taken. */
  lemma BadContentTouchesNothing(db: Db, request: Request, outside: Outside, today: Date, requestId: string)
    ensures !GoodContent(request.document) ==>
              IssueEnding(db, request, outside, today, requestId) == Ending(db, Some(Fault(BadInput, None)), [], false)
    ensures GoodContent(request.document) && HasFolio(db, request, today, requestId) ==>
              |IssueEnding(db, request, outside, today, requestId).taken| == 1
  {
    IssueEndsExactly(db, request, outside, today, requestId);
    hide HasFolio, FolioFor, Conclude;
  }

  lemma AcceptableTogether(documents: seq<Document>)
    ensures AllAcceptable(documents) <==> forall i :: 0 <= i < |documents| ==> GoodContent(documents[i])
  {
    if i :| 0 <= i < |documents| && !GoodContent(documents[i]) {
      assert documents[i] in documents && !Acceptable(documents[i]);
    }
  }

  lemma BadContentInBatchTouchesNothing(
      db: Db, customer: int, documents: seq<Document>, send: bool, outside: Outside, today: Date, requestId: string)
    ensures var e := BatchEnding(db, customer, documents, send, outside, today, requestId);
            && ((exists i :: 0 <= i < |documents| && !GoodContent(documents[i])) ==>
                  e == Ending(db, Some(Fault(BadInput, None)), [], false))
            && ((forall i :: 0 <= i < |documents| ==> GoodContent(documents[i])) && HasFolios(db, customer, documents, today, requestId) ==>
                  |e.taken| == |documents|)
  {
    BatchEndsExactly(db, customer, documents, send, outside, today, requestId);
    AcceptableTogether(documents);
    var events := AllocationEvents(customer, DocTypes(documents), today, requestId);
    assert HasFolios(db, customer, documents, today, requestId) ==> |KeysOf(Run(db, events).1)| == |documents|;
    hide HasFolios, AllocateAll, Conclude, AllAcceptable, AnyDangling, Acceptable, GoodContent, Run, EarlyFault;
  }

  /** An error in the data is one in the request or in its references, whatever it was raised from. */
  lemma DataFaultsExactly(fault: Fault)
    ensures IsDataFault(fault) <==> fault.kind in {BadInput, BadReference}
  {
  }

  // ---------------------------------------------------------------- what a batch refers to

  /** Positions count from 1. */
  predicate IsPositionOf(b: nat, j: nat) {
    b == j + 1
  }

  /** Position `b` is that of another document of the batch. */
  predicate NamesAnother(b: nat, i: nat, size: nat) {
    exists j: nat :: j < size && j != i && IsPositionOf(b, j)
  }

  /** No reference dangles exactly when each position a document refers to is that of another one. */
  lemma DanglingExactly(documents: seq<Document>)
    requires WellPositioned(documents)
    ensures !AnyDangling(documents) <==>
            forall i: nat, r: nat :: i < |documents| && r < |documents[i].references| && documents[i].references[r].batchIndex.Some? ==>
              NamesAnother(documents[i].references[r].batchIndex.value, i, |documents|)
  {
    forall i: nat, r: nat | i < |documents| && r < |documents[i].references| && documents[i].references[r].batchIndex.Some?
      ensures NamesAnother(documents[i].references[r].batchIndex.value, i, |documents|) <==>
              !Dangling(documents[i].references[r], i + 1, |documents|)
    {
      var b := documents[i].references[r].batchIndex.value;
      if 1 <= b <= |documents| && b != i + 1 {
        assert IsPositionOf(b, b - 1);
      }
    }
    hide Dangling, NamesAnother;
  }

  /** The batch that is emitted has the type, date and references of its documents; a reference to
      another document of the batch carries that one's type, its folio in digits, and its date. */
  lemma EmittedBatchMeaning(customer: int, documents: seq<Document>, dtes: seq<Dte>, taken: seq<FolioKey>, i: nat)
    requires EmittedBatch(customer, documents, dtes, taken) && i < |documents|
    ensures dtes[i].docType == documents[i].docType && dtes[i].issueDate == documents[i].issueDate && dtes[i].folio == taken[i].folio
    ensures |dtes[i].references| == |documents[i].references|
    ensures forall r :: 0 <= r < |documents[i].references| ==>
              var given, made := documents[i].references[r], dtes[i].references[r];
              match given.batchIndex
              case None => made == Reference(given.docType, given.folio, given.date)
              case Some(b) =>
                && 1 <= b <= |documents| && made.docType == documents[b - 1].docType && made.date == Some(documents[b - 1].issueDate)
                && (taken[b - 1].folio >= 0 ==> made.folio == Text.Decimal(taken[b - 1].folio))
  {
    var before := DomainDte(documents[i]).(folio := dtes[i].folio);
    assert ResolvedDte(documents[i], before, dtes[i], dtes);
    forall r | 0 <= r < |documents[i].references|
      ensures var given, made := documents[i].references[r], dtes[i].references[r];
              match given.batchIndex
              case None => made == Reference(given.docType, given.folio, given.date)
              case Some(b) =>
                && 1 <= b <= |documents| && made.docType == documents[b - 1].docType && made.date == Some(documents[b - 1].issueDate)
                && (taken[b - 1].folio >= 0 ==> made.folio == Text.Decimal(taken[b - 1].folio))
    {
      var given := documents[i].references[r];
      assert ResolvedReference(given, before.references[r], dtes[i].references[r], dtes);
      if given.batchIndex.Some? {
        var b := given.batchIndex.value;
        assert ResolvedDte(documents[b - 1], DomainDte(documents[b - 1]).(folio := dtes[b - 1].folio), dtes[b - 1], dtes);
        assert taken[b - 1] == FolioKey(Account(customer, documents[b - 1].docType), dtes[b - 1].folio);
      }
    }
  }
}
