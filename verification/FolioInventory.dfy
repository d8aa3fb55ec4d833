/**
 The folio inventory: what the report says of each CAF, that its forecast is exactly what the
 allocator will deliver, and that no folio goes missing from it.
 */
module FolioInventory {
  import opened Wrappers
  import opened Sets
  import opened FolioStore
  import opened FolioHistory

  datatype CafState = InUse | Pending | UsedUp | Retired | PastExpiry | WrongEnvironment

  /** The state the report gives a CAF; `unused` counts the folios of its range never delivered. */
  function StateOf(row: CafRow, last: int, certification: bool, today: Date, unused: int): CafState {
    if row.keyId.Some? && (row.keyId == Some(CERTIFICATION_IDK)) != certification then WrongEnvironment
    else if row.expiresOn.Some? && today > row.expiresOn.value && unused != 0 then PastExpiry
    else if row.folioTo <= last then UsedUp
    else if row.exhausted then Retired
    else if row.folioFrom <= last + 1 then InUse
    else Pending
  }

  function LastFolio(db: Db, account: Account): int {
    if account in db.pointers then db.pointers[account] else 0
  }

  function UsedOf(db: Db, row: CafRow): set<FolioKey> {
    set k <- db.assignments | Owns(row, k)
  }

  function Used(db: Db, row: CafRow): int {
    |UsedOf(db, row)|
  }

  function Size(row: CafRow): int {
    row.folioTo - row.folioFrom + 1
  }

  function Unused(db: Db, row: CafRow): int {
    Size(row) - Used(db, row)
  }

  function Remaining(db: Db, row: CafRow): int {
    Max(0, row.folioTo - Max(LastFolio(db, row.account), row.folioFrom - 1))
  }

  function ReportState(db: Db, row: CafRow, today: Date): CafState {
    StateOf(row, LastFolio(db, row.account), db.InCertification(row.account.customer), today, Unused(db, row))
  }

  function SumTo(f: nat -> int, n: nat): int {
    if n == 0 then 0 else SumTo(f, n - 1) + f(n - 1)
  }

  /** What a CAF adds to the report's usable total. */
  function Usable(db: Db, row: CafRow, today: Date): int {
    if ReportState(db, row, today) in {InUse, Pending} then Remaining(db, row) else 0
  }

  function OfAccount(db: Db, account: Account, value: CafRow -> int): nat -> int {
    (i: nat) => if i < |db.cafs| && db.cafs[i].account == account then value(db.cafs[i]) else 0
  }

  function UsableRemaining(db: Db, account: Account, today: Date): int {
    SumTo(OfAccount(db, account, row => Usable(db, row, today)), |db.cafs|)
  }

  /** What the allocator itself can take from a CAF: it reads the file, not the columns. */
  function Takeable(db: Db, row: CafRow, today: Date): int {
    if row.exhausted || Refused(row.file, db.InCertification(row.account.customer), today) then 0
    else Remaining(db, row)
  }

  function Deliverable(db: Db, account: Account, today: Date): int {
    SumTo(OfAccount(db, account, row => Takeable(db, row, today)), |db.cafs|)
  }

  // ---------------------------------------------------------------- sums

  lemma {:induction false} SumToOrder(f: nat -> int, g: nat -> int, n: nat)
    requires forall i: nat :: i < n ==> f(i) <= g(i)
    ensures SumTo(f, n) <= SumTo(g, n)
    ensures SumTo(f, n) == SumTo(g, n) <==> forall i: nat :: i < n ==> f(i) == g(i)
  {
    if n > 0 {
      SumToOrder(f, g, n - 1);
    }
  }

  lemma {:induction false} SumToDiffersAt(f: nat -> int, g: nat -> int, n: nat, j: nat)
    requires j < n && forall i: nat :: i < n && i != j ==> f(i) == g(i)
    ensures SumTo(f, n) - f(j) == SumTo(g, n) - g(j)
  {
    if j < n - 1 {
      SumToDiffersAt(f, g, n - 1, j);
    } else {
      SumToOrder(f, g, n - 1);
    }
  }

  lemma {:induction false} SumToPositive(f: nat -> int, n: nat)
    requires forall i: nat :: i < n ==> f(i) >= 0
    ensures SumTo(f, n) >= 0
    ensures SumTo(f, n) > 0 <==> exists i: nat :: i < n && f(i) > 0
  {
    if n > 0 {
      SumToPositive(f, n - 1);
    }
  }

  // ---------------------------------------------------------------- the forecast

  lemma EligibleIsTakeable(db: Db, account: Account, i: nat, today: Date)
    requires Valid(db) && account in db.pointers && i < |db.cafs| && db.cafs[i].account == account
    ensures Eligible(db, account, i, today) <==> Takeable(db, db.cafs[i], today) > 0
  {
    assert RowConsistent(db.cafs[i]);
  }

  /** One delivery takes one folio from the chosen CAF and leaves the others as they were. */
  lemma DeliveryTakesOne(db: Db, after: Db, account: Account, d: Delivery, requestId: string, today: Date, i: nat)
    requires Valid(db) && account in db.pointers && d.caf < |db.cafs| && i < |db.cafs|
    requires LowestEligible(db, account, d.caf, today)
    requires d.folio == Max(db.pointers[account] + 1, db.cafs[d.caf].folioFrom)
    requires Delivered(db, after, account, d, requestId)
    requires db.cafs[i].account == account
    ensures Takeable(after, after.cafs[i], today) == Takeable(db, db.cafs[i], today) - if i == d.caf then 1 else 0
  {
    assert SameCaf(db.cafs[i], after.cafs[i]);
    assert RowConsistent(db.cafs[i]) && RowConsistent(db.cafs[d.caf]);
    EligibleIsTakeable(db, account, i, today);
    if i != d.caf && Eligible(db, account, i, today) {
      assert db.cafs[d.caf].folioTo < db.cafs[i].folioFrom;
    }
  }

  lemma DeliverableCounts(db: Db, account: Account, today: Date)
    requires Valid(db) && account in db.pointers
    ensures Deliverable(db, account, today) >= 0
    ensures Deliverable(db, account, today) > 0 <==> exists i :: Eligible(db, account, i, today)
  {
    var f := OfAccount(db, account, row => Takeable(db, row, today));
    SumToPositive(f, |db.cafs|);
    forall i: nat | i < |db.cafs| && db.cafs[i].account == account
      ensures Eligible(db, account, i, today) <==> f(i) > 0
    {
      EligibleIsTakeable(db, account, i, today);
    }
    if i :| Eligible(db, account, i, today) {
      assert f(i) > 0;
    }
  }

  /** An allocation succeeds exactly while something is deliverable, and uses up one folio. */
  lemma TakeUsesOne(db: Db, account: Account, today: Date, requestId: string)
    requires Valid(db)
    ensures var (after, r) := NextFolio(db, account, today, requestId);
            && Valid(after)
            && (account in db.pointers ==> account in after.pointers)
            && (r.Ok? <==> account in db.pointers && Deliverable(db, account, today) > 0)
            && (r.Ok? ==> Deliverable(after, account, today) == Deliverable(db, account, today) - 1)
            && (r.Err? ==> Deliverable(after, account, today) == Deliverable(db, account, today))
  {
    var (after, r) := NextFolio(db, account, today, requestId);
    TakeKeepsValid(db, account, today, requestId);
    if account in db.pointers {
      NextFolioMeaning(db, account, today, requestId);
      DeliverableCounts(db, account, today);
      TakeMovesTheSum(db, account, today, requestId);
    }
  }

  lemma TakeMovesTheSum(db: Db, account: Account, today: Date, requestId: string)
    requires Valid(db) && account in db.pointers
    ensures var (after, r) := NextFolio(db, account, today, requestId);
            Deliverable(after, account, today) == Deliverable(db, account, today) - if r.Ok? then 1 else 0
  {
    hide NextFolio;
    var (after, r) := NextFolio(db, account, today, requestId);
    NextFolioMeaning(db, account, today, requestId);
    var f := OfAccount(db, account, row => Takeable(db, row, today));
    var g := OfAccount(after, account, row => Takeable(after, row, today));
    forall i: nat | i < |db.cafs|
      ensures g(i) == f(i) - if r.Ok? && i == r.value.caf then 1 else 0
    {
      assert SameCaf(db.cafs[i], after.cafs[i]);
      if db.cafs[i].account == account && r.Ok? {
        DeliveryTakesOne(db, after, account, r.value, requestId, today, i);
      }
    }
    if r.Ok? {
      SumToDiffersAt(f, g, |db.cafs|, r.value.caf);
    } else {
      SumToOrder(f, g, |db.cafs|);
    }
  }

  function Takes(account: Account, today: Date, requestId: string, n: nat): (events: seq<Event>)
    ensures |events| == n && forall e <- events :: e == Take(account, today, requestId)
  {
    seq(n, _ => Take(account, today, requestId))
  }

  /** `n` allocations in a row deliver exactly the smaller of `n` and the deliverable total, so
      the first call past it is the one that finds the folios exhausted. */
  lemma {:induction false} ConsecutiveTakes(db: Db, account: Account, today: Date, requestId: string, n: nat)
    requires Valid(db) && account in db.pointers
    ensures var (after, taken) := Run(db, Takes(account, today, requestId, n));
            var d := Deliverable(db, account, today);
            && |taken| == (if n <= d then n else d)
            && Deliverable(after, account, today) == d - |taken|
            && account in after.pointers && Valid(after)
  {
    hide NextFolio, Valid, Deliverable;
    DeliverableCounts(db, account, today);
    if n > 0 {
      var events := Takes(account, today, requestId, n);
      assert events[..n - 1] == Takes(account, today, requestId, n - 1);
      ConsecutiveTakes(db, account, today, requestId, n - 1);
      var (middle, taken) := Run(db, Takes(account, today, requestId, n - 1));
      TakeUsesOne(middle, account, today, requestId);
      var (after, r) := NextFolio(middle, account, today, requestId);
      assert events[n - 1] == Take(account, today, requestId);
      assert Step(middle, events[n - 1]).0 == after && |Step(middle, events[n - 1]).1| == if r.Ok? then 1 else 0;
    }
  }

  // ---------------------------------------------------------------- report against allocator

  /** A CAF with folios left whose defect the columns do not show: of another environment without
      its key identifier stored, or expired without its expiry stored, and with no other defect
      that shows. */
  predicate Hidden(db: Db, row: CafRow, today: Date) {
    var foreign := row.file.keyId.Some? && row.file.IsCertification() != db.InCertification(row.account.customer);
    var expired := row.file.IsExpired(today);
    && !row.exhausted && row.folioTo > LastFolio(db, row.account)
    && (foreign || expired)
    && (foreign ==> row.keyId.None?) && (expired ==> row.expiresOn.None?)
  }

  lemma UsedAtMost(db: Db, row: CafRow, high: int)
    requires row.folioFrom - 1 <= high <= row.folioTo
    requires forall k <- db.assignments :: Owns(row, k) ==> k.folio <= high
    ensures Used(db, row) <= high - row.folioFrom + 1
  {
    var used := UsedOf(db, row);
    RangeSize(row.account, row.folioFrom, high);
    assert used <= Range(row.account, row.folioFrom, high);
    SubsetSize(used, Range(row.account, row.folioFrom, high));
  }

  function Range(account: Account, low: int, high: int): (r: set<FolioKey>)
    ensures forall k :: k in r <==> k.account == account && low <= k.folio <= high
  {
    set f | low <= f <= high :: FolioKey(account, f)
  }

  lemma {:induction false} RangeSize(account: Account, low: int, high: int)
    requires low - 1 <= high
    ensures |Range(account, low, high)| == high - low + 1
    decreases high - low
  {
    if low <= high {
      RangeSize(account, low, high - 1);
      assert Range(account, low, high) == Range(account, low, high - 1) + {FolioKey(account, high)};
    } else {
      assert Range(account, low, high) == {};
    }
  }

  /** A CAF with folios left always has unused ones, so the report never calls it used up. */
  lemma RemainingIsUnused(db: Db, i: nat)
    requires Valid(db) && i < |db.cafs|
    ensures Remaining(db, db.cafs[i]) > 0 ==> Unused(db, db.cafs[i]) > 0
  {
    var row := db.cafs[i];
    assert RowConsistent(row);
    if Remaining(db, row) > 0 {
      UsedAtMost(db, row, Max(LastFolio(db, row.account), row.folioFrom - 1));
    }
  }

  lemma UsableAgainstTakeable(db: Db, i: nat, today: Date)
    requires Valid(db) && i < |db.cafs|
    ensures Takeable(db, db.cafs[i], today) <= Usable(db, db.cafs[i], today)
    ensures Takeable(db, db.cafs[i], today) == Usable(db, db.cafs[i], today) <==> !Hidden(db, db.cafs[i], today)
  {
    assert RowConsistent(db.cafs[i]);
    RemainingIsUnused(db, i);
  }

  /** The report never forecasts less than the allocator delivers, and forecasts exactly that
      if and only if no CAF of the account is hidden by missing columns. */
  lemma ForecastIsExact(db: Db, account: Account, today: Date)
    requires Valid(db)
    ensures UsableRemaining(db, account, today) >= Deliverable(db, account, today)
    ensures UsableRemaining(db, account, today) == Deliverable(db, account, today) <==>
            forall i :: 0 <= i < |db.cafs| && db.cafs[i].account == account ==> !Hidden(db, db.cafs[i], today)
  {
    var f := OfAccount(db, account, row => Takeable(db, row, today));
    var g := OfAccount(db, account, row => Usable(db, row, today));
    forall i: nat | i < |db.cafs|
      ensures f(i) <= g(i)
      ensures f(i) == g(i) <==> (db.cafs[i].account == account ==> !Hidden(db, db.cafs[i], today))
    {
      UsableAgainstTakeable(db, i, today);
    }
    SumToOrder(f, g, |db.cafs|);
  }

  ghost predicate Complete(row: CafRow) {
    row.keyId == row.file.keyId && row.expiresOn == row.file.expiresOn && row.authorizedOn == row.file.authorizedOn
  }

  ghost predicate AllComplete(db: Db) {
    forall i :: 0 <= i < |db.cafs| ==> Complete(db.cafs[i])
  }

  lemma BackfillKeepsComplete(db: Db, visited: seq<nat>)
    requires AllComplete(db)
    ensures AllComplete(db.(cafs := BackfillRows(db.cafs, visited)))
  {
    forall i | 0 <= i < |db.cafs| ensures Complete(BackfillRows(db.cafs, visited)[i]) {
      assert Complete(db.cafs[i]);
    }
  }

  lemma NextFolioKeepsComplete(db: Db, account: Account, today: Date, requestId: string)
    requires AllComplete(db) && account in db.pointers
    ensures AllComplete(NextFolio(db, account, today, requestId).0)
  {
    hide Candidates, FirstUsable, BackfillRows;
    var order := Candidates(db.cafs, account, db.pointers[account] + 1, |db.cafs|);
    var k := FirstUsable(db.cafs, order, db.InCertification(account.customer), today);
    BackfillKeepsComplete(db, order);
    if k < |order| {
      BackfillKeepsComplete(db, order[..k + 1]);
    }
  }

  lemma StepKeepsComplete(db: Db, event: Event)
    requires AllComplete(db)
    ensures AllComplete(Step(db, event).0)
  {
    hide NextFolio, CheckCaf;
    match event
    case Take(account, today, requestId) =>
      if account in db.pointers {
        NextFolioKeepsComplete(db, account, today, requestId);
      } else {
        assert NextFolio(db, account, today, requestId).0 == db by { TakeWithoutPointer(db, account, today, requestId); }
      }
    case _ =>
  }

  /** Once every row carries its columns, a complete run keeps it so. */
  lemma {:induction false} RunKeepsComplete(db: Db, events: seq<Event>)
    requires AllComplete(db)
    ensures AllComplete(Run(db, events).0)
  {
    if events != [] {
      RunKeepsComplete(db, events[..|events| - 1]);
      StepKeepsComplete(Run(db, events[..|events| - 1]).0, events[|events| - 1]);
    }
  }

  lemma CompleteIsNotHidden(db: Db, i: nat, today: Date)
    requires Valid(db) && i < |db.cafs| && Complete(db.cafs[i])
    ensures !Hidden(db, db.cafs[i], today)
  {
    RemainingIsUnused(db, i);
  }

  /** From complete tables, after any run at all, the report's total is the exact number of
      consecutive allocations that will succeed on that day. */
  lemma ReportForecastsAllocator(db: Db, events: seq<Event>, account: Account, today: Date, requestId: string, n: nat)
    requires Valid(db) && AllComplete(db)
    requires Disjoint(Run(db, events).0.cafs) && account in Run(db, events).0.pointers
    ensures var now := Run(db, events).0;
            var usable := UsableRemaining(now, account, today);
            |Run(now, Takes(account, today, requestId, n)).1| == if n <= usable then n else usable
  {
    var now := Run(db, events).0;
    EveryRunIsValidExactly(db, events);
    RunKeepsComplete(db, events);
    forall i | 0 <= i < |now.cafs| ensures !Hidden(now, now.cafs[i], today) {
      CompleteIsNotHidden(now, i, today);
    }
    ForecastIsExact(now, account, today);
    ConsecutiveTakes(now, account, today, requestId, n);
  }

  /** A row stored before its columns existed, whose CAF has expired: the report still offers
      its folios, the allocator refuses them. */
  lemma MissingColumnsMislead() returns (db: Db, account: Account, today: Date)
    ensures Valid(db) && account in db.pointers
    ensures UsableRemaining(db, account, today) > 0
    ensures NextFolio(db, account, today, "-").1.Err?
  {
    account, today := Account(1, 33), 11;
    var row := CafRow(account, 1, 1, Caf(33, 1, 1, Some(100), Some(0), Some(10)), false, None, None, None);
    db := Db(map[1 := Certification], [row], map[account := 0], map[]);
    RemainingIsUnused(db, 0);
    ForecastIsExact(db, account, today);
    DeliverableCounts(db, account, today);
    NextFolioMeaning(db, account, today, "-");
  }

  lemma BackfilledIsComplete(row: CafRow)
    requires RowConsistent(row)
    ensures Complete(Backfilled(row))
  {
  }

  /** `after` is `db` with every candidate of the account completed. */
  ghost predicate CandidatesCompleted(db: Db, after: Db, account: Account)
    requires account in db.pointers
  {
    && after == db.(cafs := after.cafs) && |after.cafs| == |db.cafs|
    && forall i :: 0 <= i < |db.cafs| ==>
         after.cafs[i] == if Candidate(db.cafs[i], account, db.pointers[account] + 1) then Backfilled(db.cafs[i]) else db.cafs[i]
  }

  lemma FailureCompletesCandidates(db: Db, account: Account, today: Date, requestId: string)
    requires account in db.pointers && NextFolio(db, account, today, requestId).1.Err?
    ensures CandidatesCompleted(db, NextFolio(db, account, today, requestId).0, account)
  {
    hide Candidates, FirstUsable, Backfilled, Candidate;
    CandidatesAreSorted(db.cafs, account, db.pointers[account] + 1, |db.cafs|);
  }

  lemma CompletedIsNotHidden(db: Db, after: Db, account: Account, today: Date, i: nat)
    requires Valid(db) && Valid(after) && account in db.pointers && CandidatesCompleted(db, after, account)
    requires i < |after.cafs| && after.cafs[i].account == account
    ensures !Hidden(after, after.cafs[i], today)
  {
    assert RowConsistent(db.cafs[i]);
    hide Valid;
    if Candidate(db.cafs[i], account, db.pointers[account] + 1) {
      BackfilledIsComplete(db.cafs[i]);
      CompleteIsNotHidden(after, i, today);
    }
  }

  /** An allocation that finds nothing usable completes every row it looked at, so afterwards
      the report and the allocator agree: nothing is left. */
  lemma FailedTakeRepairsReport(db: Db, account: Account, today: Date, requestId: string)
    requires Valid(db) && account in db.pointers && NextFolio(db, account, today, requestId).1.Err?
    ensures UsableRemaining(NextFolio(db, account, today, requestId).0, account, today) == 0
  {
    hide NextFolio, Valid, Hidden, Deliverable, UsableRemaining;
    var after := NextFolio(db, account, today, requestId).0;
    FailureCompletesCandidates(db, account, today, requestId);
    TakeUsesOne(db, account, today, requestId);
    DeliverableCounts(db, account, today);
    forall i: nat | i < |after.cafs| && after.cafs[i].account == account
      ensures !Hidden(after, after.cafs[i], today)
    {
      CompletedIsNotHidden(db, after, account, today, i);
    }
    ForecastIsExact(after, account, today);
  }

  // ---------------------------------------------------------------- loads, retirements and states

  /** Exactly which CAFs are loaded, and as what row. */
  lemma LoadedExactly(db: Db, customer: int, upload: CafUpload, today: Date)
    ensures var (after, r) := AddCaf(db, customer, upload, today);
            && (r.Ok? <==> upload.Readable? && upload.caf.WellFormed() && upload.sameRut && upload.keysMatch
                           && upload.caf.keyId.Some? && !Refused(upload.caf, db.InCertification(customer), today)
                           && forall i :: 0 <= i < |db.cafs| ==>
                                !RangesMeet(db.cafs[i], Account(customer, upload.caf.docType), upload.caf.folioFrom, upload.caf.folioTo))
            && (r.Ok? ==> after.cafs == db.cafs + [RowOf(Account(customer, upload.caf.docType), upload.caf)])
            && (r.Err? ==> after == db)
  {
  }

  /** A CAF is usable the day it is loaded: what the allocator can deliver grows by all of its
      folios past the pointer. */
  lemma LoadAddsExactly(db: Db, customer: int, upload: CafUpload, today: Date)
    requires AddCaf(db, customer, upload, today).1.Ok?
    ensures var after := AddCaf(db, customer, upload, today).0;
            var account := Account(customer, upload.caf.docType);
            && account in after.pointers
            && Deliverable(after, account, today) == Deliverable(db, account, today)
                 + Max(0, upload.caf.folioTo - Max(LastFolio(db, account), upload.caf.folioFrom - 1))
  {
    LoadedExactly(db, customer, upload, today);
    var after := AddCaf(db, customer, upload, today).0;
    var account := Account(customer, upload.caf.docType);
    hide AddCaf;
    var f := OfAccount(db, account, row => Takeable(db, row, today));
    var g := OfAccount(after, account, row => Takeable(after, row, today));
    assert LastFolio(after, account) == LastFolio(db, account);
    forall i: nat | i < |db.cafs| ensures f(i) == g(i) {
      assert after.cafs[i] == db.cafs[i];
    }
    SumToOrder(f, g, |db.cafs|);
    assert g(|db.cafs|) == Takeable(after, RowOf(account, upload.caf), today);
  }

  /** Retiring a CAF takes away exactly what the allocator could still deliver from it. */
  lemma RetireRemovesExactly(db: Db, customer: int, id: int, today: Date)
    requires RetireCaf(db, customer, id).1.Ok?
    ensures 0 <= id < |db.cafs|
    ensures var account := db.cafs[id].account;
            Deliverable(RetireCaf(db, customer, id).0, account, today) ==
            Deliverable(db, account, today) - Takeable(db, db.cafs[id], today)
  {
    var after := RetireCaf(db, customer, id).0;
    var account := db.cafs[id].account;
    var f := OfAccount(db, account, row => Takeable(db, row, today));
    var g := OfAccount(after, account, row => Takeable(after, row, today));
    forall i: nat | i < |db.cafs| && i != id ensures f(i) == g(i) {
      assert after.cafs[i] == db.cafs[i];
    }
    SumToDiffersAt(f, g, |db.cafs|, id);
  }

  lemma VisitedIsComplete(db: Db, account: Account, today: Date, requestId: string)
    requires Valid(db) && account in db.pointers
    ensures var (after, r) := NextFolio(db, account, today, requestId);
            r.Ok? ==> r.value.caf < |after.cafs| && Complete(after.cafs[r.value.caf])
  {
    hide Candidates, FirstUsable, Backfilled, Refused, BackfillRows, Valid;
    var order := Candidates(db.cafs, account, db.pointers[account] + 1, |db.cafs|);
    var k := FirstUsable(db.cafs, order, db.InCertification(account.customer), today);
    if k < |order| {
      var i := order[k];
      assert order[..k + 1][k] == i && i in order[..k + 1];
      assert BackfillRows(db.cafs, order[..k + 1])[i] == Backfilled(db.cafs[i]);
      assert RowConsistent(db.cafs[i]) by { ConsistentRow(db, i); }
      BackfilledIsComplete(db.cafs[i]);
    }
  }

  lemma ConsistentRow(db: Db, i: nat)
    requires Valid(db) && i < |db.cafs|
    ensures RowConsistent(db.cafs[i])
  {
  }

  lemma StateOfConsumed(row: CafRow, last: int, certification: bool, today: Date, unused: int)
    requires Complete(row) && !Refused(row.file, certification, today)
    requires row.folioFrom <= last <= row.folioTo && (row.exhausted ==> last == row.folioTo)
    ensures StateOf(row, last, certification, today, unused) == if last == row.folioTo then UsedUp else InUse
  {
  }

  lemma DeliveredCaf(db: Db, account: Account, today: Date, requestId: string)
    requires Valid(db) && account in db.pointers
    ensures var (after, r) := NextFolio(db, account, today, requestId);
            r.Ok? ==>
              && r.value.caf < |after.cafs|
              && account in after.pointers && after.pointers[account] == r.value.folio
              && after.environments == db.environments
              && var row := after.cafs[r.value.caf];
                 && row.account == account && row.folioFrom <= r.value.folio <= row.folioTo
                 && (row.exhausted ==> r.value.folio == row.folioTo)
                 && !Refused(row.file, db.InCertification(account.customer), today)
  {
    NextFolioMeaning(db, account, today, requestId);
    var (after, r) := NextFolio(db, account, today, requestId);
    if r.Ok? {
      ConsistentRow(db, r.value.caf);
      hide NextFolio, Valid, Refused;
      assert SameCaf(db.cafs[r.value.caf], after.cafs[r.value.caf]);
    }
  }

  /** Right after a delivery the report calls its CAF in use, or used up when that was its last
      folio: it never shows the CAF being consumed as pending, retired, expired or foreign. */
  lemma DeliveredCafIsInUse(db: Db, account: Account, today: Date, requestId: string)
    requires Valid(db) && account in db.pointers
    ensures var (after, r) := NextFolio(db, account, today, requestId);
            r.Ok? ==>
              && r.value.caf < |after.cafs|
              && ReportState(after, after.cafs[r.value.caf], today) ==
                 if r.value.folio == after.cafs[r.value.caf].folioTo then UsedUp else InUse
  {
    var (after, r) := NextFolio(db, account, today, requestId);
    VisitedIsComplete(db, account, today, requestId);
    DeliveredCaf(db, account, today, requestId);
    hide NextFolio, Valid, Unused, StateOf, Refused, Complete;
    if r.Ok? {
      var row := after.cafs[r.value.caf];
      StateOfConsumed(row, r.value.folio, db.InCertification(account.customer), today, Unused(after, row));
    }
  }

  // ---------------------------------------------------------------- conservation

  function KeysOf(db: Db, account: Account): set<FolioKey> {
    set k <- db.assignments | k.account == account
  }

  function KeysWith(db: Db, account: Account, status: Status): (r: set<FolioKey>)
    ensures forall k :: k in r <==> k in KeysOf(db, account) && db.assignments[k].status == status
  {
    set k <- KeysOf(db, account) | db.assignments[k].status == status
  }

  function CountStatus(db: Db, account: Account, status: Status): int {
    |KeysWith(db, account, status)|
  }

  lemma StatusesPartition(db: Db, account: Account)
    ensures CountStatus(db, account, Issued) + CountStatus(db, account, Failed)
            + CountStatus(db, account, Unknown) + CountStatus(db, account, Assigned) == |KeysOf(db, account)|
  {
    var keys := KeysOf(db, account);
    hide KeysOf;
    var issued, failed := KeysWith(db, account, Issued), KeysWith(db, account, Failed);
    var unknown, open := KeysWith(db, account, Unknown), KeysWith(db, account, Assigned);
    hide KeysWith, KeysOf;
    UnionSize(issued, failed);
    UnionSize(unknown, open);
    UnionSize(issued + failed, unknown + open);
    assert keys == (issued + failed) + (unknown + open);
  }

  /** The delivered folios of the account that lie in the first `n` CAFs. */
  function OwnedBy(db: Db, account: Account, n: nat): set<FolioKey>
    requires n <= |db.cafs|
  {
    set k <- KeysOf(db, account) | exists i :: 0 <= i < n && Owns(db.cafs[i], k)
  }

  /** No delivered folio of the account lies in two of the first `n` CAFs. */
  ghost predicate OwnedOnce(db: Db, account: Account, n: nat)
    requires n <= |db.cafs|
  {
    forall i, j, k :: 0 <= i < j < n && k in KeysOf(db, account) && Owns(db.cafs[i], k) ==> !Owns(db.cafs[j], k)
  }

  lemma OwnedByNext(db: Db, account: Account, n: nat)
    requires n < |db.cafs|
    ensures var before, used := OwnedBy(db, account, n), UsedOf(db, db.cafs[n]);
            OwnedBy(db, account, n + 1) == if db.cafs[n].account == account then before + used else before
  {
    var before, used, after := OwnedBy(db, account, n), UsedOf(db, db.cafs[n]), OwnedBy(db, account, n + 1);
    assert forall k :: Owns(db.cafs[n], k) ==> k.account == db.cafs[n].account;
    hide Owns;
    forall k | k in after ensures k in before || (db.cafs[n].account == account && k in used) {
      var i :| 0 <= i < n + 1 && Owns(db.cafs[i], k);
    }
    forall k | k in before || (db.cafs[n].account == account && k in used) ensures k in after {
      if k in before {
        var i :| 0 <= i < n && Owns(db.cafs[i], k);
      } else {
        assert Owns(db.cafs[n], k);
      }
    }
    if db.cafs[n].account == account {
      assert after == before + used;
    } else {
      assert after == before;
    }
  }

  lemma OwnedOnceNext(db: Db, account: Account, n: nat)
    requires n < |db.cafs|
    ensures OwnedOnce(db, account, n + 1) <==>
            OwnedOnce(db, account, n)
            && (db.cafs[n].account == account ==> OwnedBy(db, account, n) !! UsedOf(db, db.cafs[n]))
  {
    var before, used := OwnedBy(db, account, n), UsedOf(db, db.cafs[n]);
    assert forall k :: Owns(db.cafs[n], k) ==> k.account == db.cafs[n].account;
    hide Owns;
    if OwnedOnce(db, account, n + 1) {
      forall k | k in before ensures k !in used {
        var i :| 0 <= i < n && Owns(db.cafs[i], k);
      }
    }
    if OwnedOnce(db, account, n) && (db.cafs[n].account == account ==> before !! used) {
      forall i, j, k | 0 <= i < j < n + 1 && k in KeysOf(db, account) && Owns(db.cafs[i], k) ensures !Owns(db.cafs[j], k) {
        if j == n {
          assert k in before;
        }
      }
    }
  }

  /** Counting CAF by CAF counts a folio once for each CAF it lies in. */
  lemma {:induction false} UsedAddsUpExactly(db: Db, account: Account, n: nat)
    requires n <= |db.cafs|
    ensures var sum := SumTo(OfAccount(db, account, row => Used(db, row)), n);
            sum >= |OwnedBy(db, account, n)| && (sum == |OwnedBy(db, account, n)| <==> OwnedOnce(db, account, n))
  {
    hide OwnedOnce, OwnedBy;
    if n > 0 {
      UsedAddsUpExactly(db, account, n - 1);
      OwnedByNext(db, account, n - 1);
      OwnedOnceNext(db, account, n - 1);
      UnionSizeExactly(OwnedBy(db, account, n - 1), UsedOf(db, db.cafs[n - 1]));
    } else {
      NothingOwnedYet(db, account);
    }
  }

  lemma NothingOwnedYet(db: Db, account: Account)
    ensures OwnedBy(db, account, 0) == {} && OwnedOnce(db, account, 0)
  {
  }

  lemma AllAreOwned(db: Db, account: Account)
    requires Sound(db)
    ensures OwnedBy(db, account, |db.cafs|) == KeysOf(db, account)
  {
  }

  /** Every authorised folio of an account is accounted for (issued, failed, unknown, still assigned,
      or never used) exactly when no delivered folio lies in two CAFs. */
  lemma FoliosAreConservedExactly(db: Db, account: Account)
    requires Sound(db)
    ensures SumTo(OfAccount(db, account, row => Size(row)), |db.cafs|) ==
            CountStatus(db, account, Issued) + CountStatus(db, account, Failed)
            + CountStatus(db, account, Unknown) + CountStatus(db, account, Assigned)
            + SumTo(OfAccount(db, account, row => Unused(db, row)), |db.cafs|) <==>
            OwnedOnce(db, account, |db.cafs|)
  {
    StatusesPartition(db, account);
    UsedAddsUpExactly(db, account, |db.cafs|);
    AllAreOwned(db, account);
    hide Sound, OwnedOnce, OwnedBy, KeysOf, CountStatus;
    SumsAdd(OfAccount(db, account, row => Used(db, row)), OfAccount(db, account, row => Unused(db, row)),
            OfAccount(db, account, row => Size(row)), |db.cafs|);
  }

  /** So it is as long as no two ranges of the account meet. */
  lemma FoliosAreConserved(db: Db, account: Account)
    requires Valid(db)
    ensures SumTo(OfAccount(db, account, row => Size(row)), |db.cafs|) ==
            CountStatus(db, account, Issued) + CountStatus(db, account, Failed)
            + CountStatus(db, account, Unknown) + CountStatus(db, account, Assigned)
            + SumTo(OfAccount(db, account, row => Unused(db, row)), |db.cafs|)
  {
    FoliosAreConservedExactly(db, account);
    assert OwnedOnce(db, account, |db.cafs|);
    hide Valid, CountStatus, SumTo, OfAccount, OwnedOnce;
  }

  lemma {:induction false} SumsAdd(f: nat -> int, g: nat -> int, h: nat -> int, n: nat)
    requires forall i: nat :: i < n ==> f(i) + g(i) == h(i)
    ensures SumTo(f, n) + SumTo(g, n) == SumTo(h, n)
  {
    if n > 0 {
      SumsAdd(f, g, h, n - 1);
    }
  }

  /** Of a CAF ending past the pointer exactly the folios up to the pointer were delivered. */
  lemma UsedIsAPrefix(db: Db, i: nat)
    requires Valid(db) && i < |db.cafs| && db.cafs[i].folioTo > LastFolio(db, db.cafs[i].account)
    ensures var row := db.cafs[i];
            forall k :: k in db.assignments && Owns(row, k) <==>
              k.account == row.account && row.folioFrom <= k.folio <= LastFolio(db, row.account)
  {
    var row := db.cafs[i];
    assert RowConsistent(row) && row.account in db.pointers;
    var last := db.pointers[row.account];
    forall k: FolioKey | k.account == row.account && row.folioFrom <= k.folio <= last ensures k in db.assignments {
      assert FolioKey(row.account, last) in db.assignments;
      assert Precedes(db.cafs, i, k, FolioKey(row.account, last));
    }
  }

  /** A CAF ending past the pointer has exactly its remaining folios unused; any other has none
      remaining, whatever it left unused behind. */
  lemma RemainingMatchesUnused(db: Db, i: nat)
    requires Valid(db) && i < |db.cafs|
    ensures var row := db.cafs[i];
            if row.folioTo > LastFolio(db, row.account) then Remaining(db, row) == Unused(db, row)
            else Remaining(db, row) == 0
  {
    var row := db.cafs[i];
    assert RowConsistent(row) && row.account in db.pointers;
    var last := db.pointers[row.account];
    if row.folioTo > last {
      var high := Max(last, row.folioFrom - 1);
      var used := UsedOf(db, row);
      UsedIsAPrefix(db, i);
      hide Valid;
      assert used == Range(row.account, row.folioFrom, high);
      RangeSize(row.account, row.folioFrom, high);
    }
  }

  // ---------------------------------------------------------------- the report itself

  datatype ReportRow = ReportRow(caf: nat, state: CafState, remaining: int, unused: int)

  datatype TypeReport = TypeReport(
    docType: int,
    lastFolio: int,
    usableRemaining: int,
    issued: int,
    failed: int,
    unknown: int,
    open: int,
    rows: seq<ReportRow>)

  /** The CAFs of an account among the first `n` rows, by ascending range. */
  function AccountRows(cafs: seq<CafRow>, account: Account, n: nat): (r: seq<nat>)
    requires n <= |cafs|
    ensures Indexes(r, cafs)
  {
    if n == 0 then []
    else
      var rest := AccountRows(cafs, account, n - 1);
      if cafs[n - 1].account == account then InsertByFrom(cafs, n - 1, rest) else rest
  }

  lemma {:induction false} AccountRowsAreOfAccount(cafs: seq<CafRow>, account: Account, n: nat)
    requires n <= |cafs|
    ensures forall j: nat :: j in AccountRows(cafs, account, n) <==> j < n && cafs[j].account == account
  {
    if n > 0 {
      AccountRowsAreOfAccount(cafs, account, n - 1);
      if cafs[n - 1].account == account {
        InsertAdds(cafs, n - 1, AccountRows(cafs, account, n - 1));
      }
    }
  }

  function RowReport(db: Db, i: nat, today: Date): ReportRow
    requires i < |db.cafs|
  {
    var row := db.cafs[i];
    ReportRow(i, ReportState(db, row, today), Remaining(db, row), Unused(db, row))
  }

  function ReportOf(db: Db, account: Account, today: Date): TypeReport {
    var order := AccountRows(db.cafs, account, |db.cafs|);
    TypeReport(account.docType, LastFolio(db, account), UsableRemaining(db, account, today),
               CountStatus(db, account, Issued), CountStatus(db, account, Failed),
               CountStatus(db, account, Unknown), CountStatus(db, account, Assigned),
               seq(|order|, m requires 0 <= m < |order| => RowReport(db, order[m], today)))
  }

  function SumOver(f: nat -> int, order: seq<nat>): int {
    if order == [] then 0 else SumOver(f, order[..|order| - 1]) + f(order[|order| - 1])
  }

  lemma {:induction false} SumOverCons(f: nat -> int, x: nat, order: seq<nat>)
    ensures SumOver(f, [x] + order) == f(x) + SumOver(f, order)
  {
    if order == [] {
      assert [x] + order == [x];
    } else {
      var front := order[..|order| - 1];
      SumOverCons(f, x, front);
      assert ([x] + order)[..|order|] == [x] + front;
    }
  }

  lemma {:induction false} SumOverInsert(f: nat -> int, cafs: seq<CafRow>, i: nat, order: seq<nat>)
    requires i < |cafs| && Indexes(order, cafs)
    ensures SumOver(f, InsertByFrom(cafs, i, order)) == f(i) + SumOver(f, order)
  {
    if order == [] || cafs[i].folioFrom <= cafs[order[0]].folioFrom {
      SumOverCons(f, i, order);
    } else {
      SumOverInsert(f, cafs, i, order[1..]);
      SumOverCons(f, order[0], InsertByFrom(cafs, i, order[1..]));
      SumOverCons(f, order[0], order[1..]);
      assert [order[0]] + order[1..] == order;
    }
  }

  /** Walking an account's CAFs in order adds up to the sum over the table. */
  lemma {:induction false} SumOverAccount(db: Db, account: Account, value: CafRow -> int, n: nat)
    requires n <= |db.cafs|
    ensures SumOver(OfAccount(db, account, value), AccountRows(db.cafs, account, n)) == SumTo(OfAccount(db, account, value), n)
  {
    if n > 0 {
      SumOverAccount(db, account, value, n - 1);
      if db.cafs[n - 1].account == account {
        SumOverInsert(OfAccount(db, account, value), db.cafs, n - 1, AccountRows(db.cafs, account, n - 1));
      }
    }
  }
}
