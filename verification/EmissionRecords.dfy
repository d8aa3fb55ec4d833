/**
 At-most-once emission: a marker row claimed before emitting, the archive of emitted documents,
 and their transactions. Encryption and the JSON form of a response are invertible and left out.
 */
module EmissionRecords {
  import opened Wrappers

  /** Who asks and with which key; an empty key asks for no protection. */
  datatype Request = Request(customer: int, key: string)

  datatype Document = Document(docType: int, folio: int, xml: string)

  /** What an emission returns; `documents` are those of the envelope it carries, if any. */
  datatype Response = Response(body: string, documents: seq<Document>)

  datatype Marker = Running | Done(response: Response) | Failed(error: string)

  datatype DocKey = DocKey(customer: int, docType: int, folio: int)

  datatype Store = Store(markers: map<Request, Marker>, archive: map<DocKey, string>)

  datatype ReplayError = InProgress | AlreadyFailed(error: string) | MarkerGone

  datatype Fault = DataFault | OtherFault(message: string)

  // ---------------------------------------------------------------- the transactions

  function Claim(store: Store, request: Request): Store {
    if request in store.markers then store
    else store.(markers := store.markers[request := Running])
  }

  function Replay(store: Store, request: Request): Result<Response, ReplayError> {
    if request !in store.markers then Err(MarkerGone)
    else
      match store.markers[request]
      case Done(response) => Ok(response)
      case Failed(error) => Err(AlreadyFailed(error))
      case Running => Err(InProgress)
  }

  const MAX_ERROR := 500

  function Truncated(message: string): string {
    if |message| <= MAX_ERROR then message else message[..MAX_ERROR]
  }

  /** A data fault frees the key; any other closes it for good. */
  function CloseFailed(store: Store, request: Request, fault: Fault): Store {
    match fault
    case DataFault => store.(markers := store.markers - {request})
    case OtherFault(message) => store.(markers := store.markers[request := Failed(Truncated(message))])
  }

  function Complete(store: Store, request: Request, response: Response): Store {
    store.(markers := store.markers[request := Done(response)])
  }

  function KeyOf(customer: int, document: Document): DocKey {
    DocKey(customer, document.docType, document.folio)
  }

  /** The documents of the envelope that have no row yet, in order. */
  function Missing(archive: map<DocKey, string>, customer: int, documents: seq<Document>): seq<Document> {
    if documents == [] then []
    else
      var rest := Missing(archive, customer, documents[..|documents| - 1]);
      var last := documents[|documents| - 1];
      if KeyOf(customer, last) in archive then rest else rest + [last]
  }

  predicate KeysDistinct(customer: int, documents: seq<Document>) {
    forall i, j :: 0 <= i < j < |documents| ==> KeyOf(customer, documents[i]) != KeyOf(customer, documents[j])
  }

  function Rows(customer: int, documents: seq<Document>): (rows: map<DocKey, string>)
    requires KeysDistinct(customer, documents)
    ensures forall k :: k in rows <==> exists i :: 0 <= i < |documents| && KeyOf(customer, documents[i]) == k
    ensures forall i :: 0 <= i < |documents| ==> rows[KeyOf(customer, documents[i])] == documents[i].xml
  {
    map i | 0 <= i < |documents| :: KeyOf(customer, documents[i]) := documents[i].xml
  }

  /** Stores every document that has no row. The new rows are written in one commit, so two of
      them with one key break the unique constraint and none is stored. */
  function Archive(store: Store, customer: int, documents: seq<Document>): Option<Store> {
    var missing := Missing(store.archive, customer, documents);
    if KeysDistinct(customer, missing) then Some(store.(archive := store.archive + Rows(customer, missing)))
    else None
  }

  function StoredXml(store: Store, key: DocKey): Option<string> {
    if key in store.archive then Some(store.archive[key]) else None
  }

  // ---------------------------------------------------------------- the archive is write-once

  lemma {:induction false} MissingIsNew(archive: map<DocKey, string>, customer: int, documents: seq<Document>)
    ensures forall d :: d in Missing(archive, customer, documents) <==> d in documents && KeyOf(customer, d) !in archive
  {
    if documents != [] {
      MissingIsNew(archive, customer, documents[..|documents| - 1]);
      assert documents == documents[..|documents| - 1] + [documents[|documents| - 1]];
    }
  }

  lemma {:induction false} MissingKeepsDistinct(archive: map<DocKey, string>, customer: int, documents: seq<Document>)
    requires KeysDistinct(customer, documents)
    ensures KeysDistinct(customer, Missing(archive, customer, documents))
  {
    if documents != [] {
      var start := documents[..|documents| - 1];
      MissingKeepsDistinct(archive, customer, start);
      MissingIsNew(archive, customer, start);
      var rest := Missing(archive, customer, start);
      forall i | 0 <= i < |rest| ensures KeyOf(customer, rest[i]) != KeyOf(customer, documents[|documents| - 1]) {
        assert rest[i] in rest && rest[i] in start;
      }
    }
  }

  /** The new rows are those of the envelope that had none. */
  lemma RowsAreMissing(archive: map<DocKey, string>, customer: int, documents: seq<Document>)
    requires KeysDistinct(customer, Missing(archive, customer, documents))
    ensures var rows := Rows(customer, Missing(archive, customer, documents));
            forall k :: k in rows <==> k !in archive && exists d <- documents :: KeyOf(customer, d) == k
  {
    var missing := Missing(archive, customer, documents);
    var rows := Rows(customer, missing);
    MissingIsNew(archive, customer, documents);
    hide Missing, KeysDistinct, KeyOf;
    forall k | k in rows ensures k !in archive && exists d <- documents :: KeyOf(customer, d) == k {
      var i :| 0 <= i < |missing| && KeyOf(customer, missing[i]) == k;
      assert missing[i] in missing;
    }
    forall d | d in documents && KeyOf(customer, d) !in archive ensures KeyOf(customer, d) in rows {
      assert d in missing;
    }
  }

  /** Archiving changes no existing row and adds exactly the keys of the envelope; the marker
      rows are not touched. */
  lemma ArchiveIsWriteOnce(store: Store, customer: int, documents: seq<Document>)
    requires Archive(store, customer, documents).Some?
    ensures var after := Archive(store, customer, documents).value;
            && after.markers == store.markers
            && (forall k <- store.archive :: k in after.archive && after.archive[k] == store.archive[k])
            && (forall k :: k in after.archive <==> k in store.archive || exists d <- documents :: KeyOf(customer, d) == k)
  {
    RowsAreMissing(store.archive, customer, documents);
    hide Missing, KeysDistinct, KeyOf, Rows;
  }

  /** An envelope whose documents are distinct is always archived, and each of its documents is
      retrievable as emitted exactly when its folio had no other document before. */
  lemma ArchiveStoresEnvelope(store: Store, customer: int, documents: seq<Document>, d: Document)
    requires KeysDistinct(customer, documents) && d in documents
    ensures Archive(store, customer, documents).Some?
    ensures var stored := StoredXml(Archive(store, customer, documents).value, KeyOf(customer, d));
            stored == Some(d.xml) <==> KeyOf(customer, d) !in store.archive || store.archive[KeyOf(customer, d)] == d.xml
  {
    MissingKeepsDistinct(store.archive, customer, documents);
    MissingIsNew(store.archive, customer, documents);
    ArchiveIsWriteOnce(store, customer, documents);
    var missing := Missing(store.archive, customer, documents);
    if KeyOf(customer, d) !in store.archive {
      assert d in missing;
      var i :| 0 <= i < |missing| && missing[i] == d;
      assert Rows(customer, missing)[KeyOf(customer, missing[i])] == d.xml;
    }
  }

  // ---------------------------------------------------------------- as the service runs it

  datatype Outcome = Returned(response: Response) | Raised(fault: Fault)

  datatype Answer = Answered(response: Response) | Replayed(reply: Result<Response, ReplayError>) | Broke(fault: Fault)

  const DUPLICATE_ROWS := OtherFault("duplicate rows")

  /** One whole call, alone: what it answers, and whether it executed the emission. */
  function RunAlone(store: Store, request: Request, outcome: Outcome): (Store, Answer, bool) {
    if request.key != "" && request in store.markers then (store, Replayed(Replay(store, request)), false)
    else
      var claimed := if request.key == "" then store else Claim(store, request);
      match outcome
      case Raised(fault) => (if request.key == "" then claimed else CloseFailed(claimed, request, fault), Broke(fault), true)
      case Returned(response) =>
        match Archive(claimed, request.customer, response.documents)
        case None => (claimed, Broke(DUPLICATE_ROWS), true)
        case Some(archived) =>
          (if request.key == "" then archived else Complete(archived, request, response), Answered(response), true)
  }

  /** A retry of a call that answered is answered the same, executes nothing and changes nothing. */
  lemma RetryAnswersTheSame(store: Store, request: Request, outcome: Outcome, again: Outcome)
    requires request.key != "" && RunAlone(store, request, outcome).1.Answered?
    ensures var (after, answer, _) := RunAlone(store, request, outcome);
            RunAlone(after, request, again) == (after, Replayed(Ok(answer.response)), false)
  {
  }

  /** Under a key that was ever claimed and not freed, a call executes nothing, changes nothing, and is
      answered what the marker says: the response, that it failed and why, or that it is in progress. */
  lemma TakenKeysExecuteNothing(store: Store, request: Request, outcome: Outcome)
    requires request.key != "" && request in store.markers
    ensures var (after, answer, executed) := RunAlone(store, request, outcome);
            && after == store && !executed
            && match store.markers[request]
               case Done(response) => answer == Replayed(Ok(response))
               case Failed(error) => answer == Replayed(Err(AlreadyFailed(error)))
               case Running => answer == Replayed(Err(InProgress))
  {
  }

  /** A call whose key is free, or that has none, executes, and answers or breaks as its emission does
      unless the rows it archives collide. */
  lemma FreeKeysExecute(store: Store, request: Request, outcome: Outcome)
    requires request.key == "" || request !in store.markers
    ensures var (after, answer, executed) := RunAlone(store, request, outcome);
            && executed
            && (outcome.Raised? ==> answer == Broke(outcome.fault) && after.archive == store.archive)
            && (outcome.Returned? && KeysDistinct(request.customer, outcome.response.documents) ==>
                  answer == Answered(outcome.response)
                  && forall d <- outcome.response.documents :: DocKey(request.customer, d.docType, d.folio) in after.archive)
            && (request.key == "" ==> after.markers == store.markers)
  {
    if outcome.Returned? && KeysDistinct(request.customer, outcome.response.documents) {
      MissingKeepsDistinct(store.archive, request.customer, outcome.response.documents);
      ArchiveIsWriteOnce(if request.key == "" then store else Claim(store, request), request.customer, outcome.response.documents);
    }
    hide Missing, KeysDistinct;
  }

  /** A failure that is no fault of the data is remembered by the first 500 characters of its message, and
      every retry is told so; one that is leaves no trace of the key. */
  lemma FailuresAreRemembered(store: Store, request: Request, fault: Fault, again: Outcome)
    requires request.key != "" && request !in store.markers
    ensures var after := RunAlone(store, request, Raised(fault)).0;
            && (fault.DataFault? ==> after == store)
            && (fault.OtherFault? ==>
                  exists error :: error <= fault.message && |error| == (if |fault.message| < 500 then |fault.message| else 500)
                    && RunAlone(after, request, again) == (after, Replayed(Err(AlreadyFailed(error))), false))
  {
    match fault
    case DataFault =>
      assert store.markers[request := Running] - {request} == store.markers;
    case OtherFault(message) =>
      var error := Truncated(message);
      var after := RunAlone(store, request, Raised(fault)).0;
      assert error <= message;
      assert RunAlone(after, request, again) == (after, Replayed(Err(AlreadyFailed(error))), false);
  }
}
