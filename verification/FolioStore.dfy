/**
 The rows the folio allocator works on and what each database transaction does to them.

 A folio is a legal document number. A CAF authorises one range of folios of one document
 type; an account is a (customer, document type) pair and has one pointer, the last folio it
 delivered. Every operation below is one transaction: the allocator locks its pointer row and
 commits once, so it is an atomic step for every other worker. Loading a CAF is two: the check of
 its range reads, and nothing is locked until the commit that stores it.
 */
module FolioStore {
  import opened Wrappers

  const CERTIFICATION_IDK := 100

  type Date = int

  datatype Environment = Certification | Production

  /** A CAF as it is read from its file. */
  datatype Caf = Caf(
    docType: int,
    folioFrom: int,
    folioTo: int,
    keyId: Option<int>,
    authorizedOn: Option<Date>,
    expiresOn: Option<Date>)
  {
    /** What the file parser guarantees of every CAF it returns. */
    predicate WellFormed() {
      && 1 <= folioFrom <= folioTo
      && (expiresOn.Some? ==> authorizedOn.Some?)
    }

    predicate IsCertification() {
      keyId == Some(CERTIFICATION_IDK)
    }

    predicate IsExpired(today: Date) {
      expiresOn.Some? && today > expiresOn.value
    }
  }

  type ParsedCaf = caf: Caf | caf.WellFormed() witness Caf(33, 1, 1, None, None, None)

  /** A stored CAF: its file, and the columns copied from it. The three optional columns are
      missing in rows stored before they existed. */
  datatype CafRow = CafRow(
    account: Account,
    folioFrom: int,
    folioTo: int,
    file: Caf,
    exhausted: bool,
    keyId: Option<int>,
    authorizedOn: Option<Date>,
    expiresOn: Option<Date>)
  {
    predicate Contains(folio: int) {
      folioFrom <= folio <= folioTo
    }
  }

  datatype Account = Account(customer: int, docType: int)

  datatype FolioKey = FolioKey(account: Account, folio: int)

  datatype Status = Assigned | Issued | Failed | Unknown

  datatype Assignment = Assignment(requestId: string, status: Status)

  /** The tables. A CAF's identifier is its position in `cafs`; rows are never deleted. */
  datatype Db = Db(
    environments: map<int, Environment>,
    cafs: seq<CafRow>,
    pointers: map<Account, int>,
    assignments: map<FolioKey, Assignment>)
  {
    predicate InCertification(customer: int) {
      customer in environments && environments[customer] == Certification
    }
  }

  const EMPTY: Db := Db(map[], [], map[], map[])

  // ---------------------------------------------------------------- allocation

  datatype AllocationError = NoPointer | NothingUsable(skipped: seq<nat>) | NoFoliosLeft(last: int)

  datatype Delivery = Delivery(folio: int, caf: nat)

  /** A CAF the tax authority would refuse: another environment's, or expired. */
  predicate Refused(file: Caf, certification: bool, today: Date) {
    || (file.keyId.Some? && file.IsCertification() != certification)
    || file.IsExpired(today)
  }

  predicate Candidate(row: CafRow, account: Account, target: int) {
    row.account == account && !row.exhausted && row.folioTo >= target
  }

  predicate Indexes(order: seq<nat>, cafs: seq<CafRow>) {
    forall m :: 0 <= m < |order| ==> order[m] < |cafs|
  }

  function InsertByFrom(cafs: seq<CafRow>, i: nat, order: seq<nat>): (r: seq<nat>)
    requires i < |cafs| && Indexes(order, cafs)
    ensures Indexes(r, cafs)
  {
    if order == [] || cafs[i].folioFrom <= cafs[order[0]].folioFrom then [i] + order
    else [order[0]] + InsertByFrom(cafs, i, order[1..])
  }

  /** The allocator's query: the first `n` rows that are candidates, by ascending range. */
  function Candidates(cafs: seq<CafRow>, account: Account, target: int, n: nat): (r: seq<nat>)
    requires n <= |cafs|
    ensures Indexes(r, cafs)
  {
    if n == 0 then []
    else
      var rest := Candidates(cafs, account, target, n - 1);
      if Candidate(cafs[n - 1], account, target) then InsertByFrom(cafs, n - 1, rest) else rest
  }

  /** The position in `order` of the first CAF that is not refused. */
  function FirstUsable(cafs: seq<CafRow>, order: seq<nat>, certification: bool, today: Date): (k: nat)
    requires Indexes(order, cafs)
    ensures k <= |order|
  {
    if order == [] || !Refused(cafs[order[0]].file, certification, today) then 0
    else 1 + FirstUsable(cafs, order[1..], certification, today)
  }

  /** Completes the columns of a row stored before they existed. */
  function Backfilled(row: CafRow): CafRow {
    var withKey := if row.keyId.None? then row.(keyId := row.file.keyId) else row;
    if row.authorizedOn.None? && row.file.authorizedOn.Some?
    then withKey.(authorizedOn := row.file.authorizedOn, expiresOn := row.file.expiresOn)
    else withKey
  }

  function BackfillRows(cafs: seq<CafRow>, visited: seq<nat>): (r: seq<CafRow>)
    ensures |r| == |cafs|
    ensures forall i :: 0 <= i < |cafs| ==> r[i] == if i in visited then Backfilled(cafs[i]) else cafs[i]
  {
    seq(|cafs|, i requires 0 <= i < |cafs| => if i in visited then Backfilled(cafs[i]) else cafs[i])
  }

  function Max(a: int, b: int): int {
    if a >= b then a else b
  }

  /** The delivery of one folio of CAF `i`, once its columns are complete. */
  function Deliver(db: Db, account: Account, i: nat, folio: int, requestId: string): Db
    requires i < |db.cafs|
  {
    db.(cafs := if folio >= db.cafs[i].folioTo then db.cafs[i := db.cafs[i].(exhausted := true)] else db.cafs,
        pointers := db.pointers[account := folio],
        assignments := db.assignments[FolioKey(account, folio) := Assignment(requestId, Assigned)])
  }

  function NextFolio(db: Db, account: Account, today: Date, requestId: string)
    : (Db, Result<Delivery, AllocationError>)
  {
    if account !in db.pointers then (db, Err(NoPointer))
    else
      var last := db.pointers[account];
      var order := Candidates(db.cafs, account, last + 1, |db.cafs|);
      var k := FirstUsable(db.cafs, order, db.InCertification(account.customer), today);
      if k == |order| then
        (db.(cafs := BackfillRows(db.cafs, order)),
         Err(if order == [] then NoFoliosLeft(last) else NothingUsable(order)))
      else
        var filled := db.(cafs := BackfillRows(db.cafs, order[..k + 1]));
        var folio := Max(last + 1, db.cafs[order[k]].folioFrom);
        (Deliver(filled, account, order[k], folio, requestId), Ok(Delivery(folio, order[k])))
  }

  // ---------------------------------------------------------------- reserved folios and outcomes

  datatype ReservationError = NotReserved | HasOutcome(status: Status) | NoCafContains

  /** The first row of the account that contains the folio, in table order. */
  function OwnerFrom(cafs: seq<CafRow>, key: FolioKey, i: nat): (r: Option<nat>)
    requires i <= |cafs|
    ensures r.Some? ==> i <= r.value < |cafs| && Owns(cafs[r.value], key)
    ensures forall j :: i <= j < (if r.Some? then r.value else |cafs|) ==> !Owns(cafs[j], key)
    decreases |cafs| - i
  {
    if i == |cafs| then None
    else if Owns(cafs[i], key) then Some(i)
    else OwnerFrom(cafs, key, i + 1)
  }

  predicate Owns(row: CafRow, key: FolioKey) {
    row.account == key.account && row.Contains(key.folio)
  }

  function CafForReserved(db: Db, key: FolioKey): Result<nat, ReservationError> {
    if key !in db.assignments then Err(NotReserved)
    else if db.assignments[key].status != Assigned then Err(HasOutcome(db.assignments[key].status))
    else
      match OwnerFrom(db.cafs, key, 0)
      case None => Err(NoCafContains)
      case Some(i) => Ok(i)
  }

  function MarkAssignment(db: Db, key: FolioKey, status: Status): Db {
    if key in db.assignments
    then db.(assignments := db.assignments[key := db.assignments[key].(status := status)])
    else db
  }

  // ---------------------------------------------------------------- loading and retiring CAFs

  /** The bytes an operator uploads: not a CAF at all, or one with the two facts about it that
      are computed outside the files modelled here. */
  datatype CafUpload = Unreadable | Readable(caf: Caf, keysMatch: bool, sameRut: bool)

  datatype CafError =
    | NotACaf
    | OtherRut
    | KeysDoNotMatch
    | WithoutKeyId
    | OtherEnvironment
    | Expired
    | Overlaps(caf: nat)
    | NotYourCaf
    | AlreadyRetired

  /** Why a CAF is of no use to the customer. */
  function CafProblem(db: Db, customer: int, upload: CafUpload, today: Date): Option<CafError>
    requires upload.Readable?
  {
    if !upload.keysMatch then Some(KeysDoNotMatch)
    else if upload.caf.keyId.None? then Some(WithoutKeyId)
    else if upload.caf.IsCertification() != db.InCertification(customer) then Some(OtherEnvironment)
    else if upload.caf.IsExpired(today) then Some(Expired)
    else None
  }

  predicate RangesMeet(row: CafRow, account: Account, folioFrom: int, folioTo: int) {
    row.account == account && row.folioFrom <= folioTo && row.folioTo >= folioFrom
  }

  function FirstOverlap(cafs: seq<CafRow>, account: Account, folioFrom: int, folioTo: int, i: nat): (r: Option<nat>)
    requires i <= |cafs|
    ensures r.Some? ==> i <= r.value < |cafs| && RangesMeet(cafs[r.value], account, folioFrom, folioTo)
    ensures r.None? ==> forall j :: i <= j < |cafs| ==> !RangesMeet(cafs[j], account, folioFrom, folioTo)
    decreases |cafs| - i
  {
    if i == |cafs| then None
    else if RangesMeet(cafs[i], account, folioFrom, folioTo) then Some(i)
    else FirstOverlap(cafs, account, folioFrom, folioTo, i + 1)
  }

  function RowOf(account: Account, caf: Caf): CafRow {
    CafRow(account, caf.folioFrom, caf.folioTo, caf, false, caf.keyId, caf.authorizedOn, caf.expiresOn)
  }

  function EnsurePointer(db: Db, account: Account): Db {
    if account in db.pointers then db else db.(pointers := db.pointers[account := 0])
  }

  /** What is checked before a CAF is loaded, against the tables as they are then. */
  function CheckCaf(db: Db, customer: int, upload: CafUpload, today: Date): Result<ParsedCaf, CafError> {
    if upload.Unreadable? || !upload.caf.WellFormed() then Err(NotACaf)
    else if !upload.sameRut then Err(OtherRut)
    else
      match CafProblem(db, customer, upload, today)
      case Some(problem) => Err(problem)
      case None =>
        match FirstOverlap(db.cafs, Account(customer, upload.caf.docType), upload.caf.folioFrom, upload.caf.folioTo, 0)
        case Some(j) => Err(Overlaps(j))
        case None => Ok(upload.caf)
  }

  /** The commit that stores it, with its pointer; the ranges are not looked at again. */
  function InsertCaf(db: Db, customer: int, caf: ParsedCaf): Db {
    var account := Account(customer, caf.docType);
    EnsurePointer(db.(cafs := db.cafs + [RowOf(account, caf)]), account)
  }

  /** A load with no other between its check and its commit. */
  function AddCaf(db: Db, customer: int, upload: CafUpload, today: Date): (Db, Result<nat, CafError>) {
    match CheckCaf(db, customer, upload, today)
    case Err(problem) => (db, Err(problem))
    case Ok(caf) => (InsertCaf(db, customer, caf), Ok(|db.cafs|))
  }

  function RetireCaf(db: Db, customer: int, id: int): (Db, Result<nat, CafError>) {
    if !(0 <= id < |db.cafs|) || db.cafs[id].account.customer != customer then (db, Err(NotYourCaf))
    else if db.cafs[id].exhausted then (db, Err(AlreadyRetired))
    else (db.(cafs := db.cafs[id := db.cafs[id].(exhausted := true)]), Ok(id))
  }
}
