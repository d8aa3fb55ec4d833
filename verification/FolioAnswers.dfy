/**
 What the allocator and its operators answer, and what the inventory report says, each in terms of
 the rows themselves.
 */
module FolioAnswers {
  import opened Wrappers
  import opened Sets
  import opened FolioStore
  import opened FolioHistory
  import opened FolioInventory

  // ---------------------------------------------------------------- why an allocation fails

  /** The CAF is of the account, was not retired and ends past the folio. */
  predicate HasFoliosPast(row: CafRow, account: Account, last: int) {
    row.account == account && !row.exhausted && row.folioTo > last
  }

  /** Each of those rows once, by ascending range, and no other. */
  ghost predicate ListsOnce(cafs: seq<CafRow>, order: seq<nat>, chosen: CafRow -> bool) {
    && Indexes(order, cafs) && Ascending(cafs, order)
    && (forall a, b :: 0 <= a < b < |order| ==> order[a] != order[b])
    && forall j: nat :: j in order <==> j < |cafs| && chosen(cafs[j])
  }

  ghost predicate NoRepeats(order: seq<nat>) {
    forall a, b :: 0 <= a < b < |order| ==> order[a] != order[b]
  }

  lemma {:induction false} InsertOnce(cafs: seq<CafRow>, i: nat, order: seq<nat>)
    requires i < |cafs| && Indexes(order, cafs) && NoRepeats(order) && i !in order
    ensures NoRepeats(InsertByFrom(cafs, i, order))
  {
    if order == [] || cafs[i].folioFrom <= cafs[order[0]].folioFrom {
    } else {
      InsertOnce(cafs, i, order[1..]);
      InsertAdds(cafs, i, order[1..]);
      var rest := InsertByFrom(cafs, i, order[1..]);
      forall b | 0 <= b < |rest| ensures rest[b] != order[0] {
        assert rest[b] in rest;
      }
    }
  }

  lemma {:induction false} CandidatesOnce(cafs: seq<CafRow>, account: Account, target: int, n: nat)
    requires n <= |cafs|
    ensures NoRepeats(Candidates(cafs, account, target, n))
  {
    hide Candidate;
    if n > 0 {
      CandidatesOnce(cafs, account, target, n - 1);
      CandidatesAreSorted(cafs, account, target, n - 1);
      if Candidate(cafs[n - 1], account, target) {
        InsertOnce(cafs, n - 1, Candidates(cafs, account, target, n - 1));
      }
    }
  }

  /** The allocator's query lists each CAF with folios left past the pointer once, by ascending range. */
  lemma QueryListsOnce(cafs: seq<CafRow>, account: Account, last: int)
    ensures ListsOnce(cafs, Candidates(cafs, account, last + 1, |cafs|), row => HasFoliosPast(row, account, last))
  {
    CandidatesOnce(cafs, account, last + 1, |cafs|);
    CandidatesAreSorted(cafs, account, last + 1, |cafs|);
    hide Candidates;
  }

  /** Why an allocation fails: nobody ever loaded a CAF; no CAF of the account has folios left; or some
      have, and the tax authority would refuse each of them, which are then the ones named. */
  lemma AllocationAnswersExactly(db: Db, account: Account, today: Date, requestId: string)
    ensures var r := NextFolio(db, account, today, requestId).1;
            r == Err(NoPointer) <==> account !in db.pointers
    ensures account in db.pointers ==>
              var r, last := NextFolio(db, account, today, requestId).1, db.pointers[account];
              var certification := db.InCertification(account.customer);
              && (r == Err(NoFoliosLeft(last)) <==> forall row <- db.cafs :: !HasFoliosPast(row, account, last))
              && (r.Err? && r.error.NoFoliosLeft? ==> r.error.last == last)
              && (r.Err? && r.error.NothingUsable? <==>
                  && (exists row <- db.cafs :: HasFoliosPast(row, account, last))
                  && forall row <- db.cafs :: HasFoliosPast(row, account, last) ==> Refused(row.file, certification, today))
              && (r.Err? && r.error.NothingUsable? ==>
                    r.error.skipped != [] && ListsOnce(db.cafs, r.error.skipped, row => HasFoliosPast(row, account, last)))
  {
    if account in db.pointers {
      var last, certification := db.pointers[account], db.InCertification(account.customer);
      var order := Candidates(db.cafs, account, last + 1, |db.cafs|);
      QueryListsOnce(db.cafs, account, last);
      CandidatesAreTheRows(db.cafs, account, last, order);
      FirstUsableMeaning(db.cafs, order, certification, today);
      hide *;
      AllocationByCandidates(db, account, today, requestId);
    } else {
      hide Candidates, FirstUsable;
    }
  }

  /** What an allocation answers, by what the scan of its candidates finds. */
  lemma AllocationByCandidates(db: Db, account: Account, today: Date, requestId: string)
    requires account in db.pointers
    ensures var r, last := NextFolio(db, account, today, requestId).1, db.pointers[account];
            var order := Candidates(db.cafs, account, last + 1, |db.cafs|);
            var k := FirstUsable(db.cafs, order, db.InCertification(account.customer), today);
            && (r.Ok? <==> k < |order|)
            && (k == |order| ==> r == Err(if order == [] then NoFoliosLeft(last) else NothingUsable(order)))
  {
    hide Candidates, FirstUsable, BackfillRows, Deliver;
  }

  lemma CandidatesAreTheRows(cafs: seq<CafRow>, account: Account, last: int, order: seq<nat>)
    requires ListsOnce(cafs, order, row => HasFoliosPast(row, account, last))
    ensures forall m :: 0 <= m < |order| ==> cafs[order[m]] in cafs && HasFoliosPast(cafs[order[m]], account, last)
    ensures forall row :: row in cafs && HasFoliosPast(row, account, last) ==> exists m :: 0 <= m < |order| && cafs[order[m]] == row
  {
    hide HasFoliosPast;
    forall row | row in cafs && HasFoliosPast(row, account, last) ensures exists m :: 0 <= m < |order| && cafs[order[m]] == row {
      var j :| 0 <= j < |cafs| && cafs[j] == row;
      assert j in order;
      var m :| 0 <= m < |order| && order[m] == j;
    }
    forall m | 0 <= m < |order| ensures HasFoliosPast(cafs[order[m]], account, last) {
      assert order[m] in order;
    }
  }

  // ---------------------------------------------------------------- what operators are answered

  /** What each check of a CAF looks at. */
  predicate Passes(db: Db, customer: int, upload: CafUpload, today: Date, check: int)
    requires upload.Readable?
  {
    if check == 0 then 1 <= upload.caf.folioFrom <= upload.caf.folioTo && (upload.caf.expiresOn.Some? ==> upload.caf.authorizedOn.Some?)
    else if check == 1 then upload.sameRut
    else if check == 2 then upload.keysMatch
    else if check == 3 then upload.caf.keyId.Some?
    else if check == 4 then
      upload.caf.keyId == Some(CERTIFICATION_IDK) <==> customer in db.environments && db.environments[customer] == Certification
    else if check == 5 then upload.caf.expiresOn.None? || today <= upload.caf.expiresOn.value
    else forall row <- db.cafs :: !RangesMeet(row, Account(customer, upload.caf.docType), upload.caf.folioFrom, upload.caf.folioTo)
  }

  function CheckOf(problem: CafError): int {
    match problem
    case NotACaf => 0
    case OtherRut => 1
    case KeysDoNotMatch => 2
    case WithoutKeyId => 3
    case OtherEnvironment => 4
    case Expired => 5
    case _ => 6
  }

  /** Row `i` is the first whose range meets that of the CAF. */
  predicate IsFirstMet(cafs: seq<CafRow>, customer: int, caf: Caf, i: nat) {
    i < |cafs| && forall j :: 0 <= j <= i ==>
      (RangesMeet(cafs[j], Account(customer, caf.docType), caf.folioFrom, caf.folioTo) <==> j == i)
  }

  /** A CAF is refused for the first check it fails, and an overlap names the first row it meets. */
  lemma CheckAnswersExactly(db: Db, customer: int, upload: CafUpload, today: Date)
    ensures var r := CheckCaf(db, customer, upload, today);
            && (upload.Unreadable? ==> r == Err(NotACaf))
            && (upload.Readable? && r.Ok? ==> r.value == upload.caf && forall c :: 0 <= c <= 6 ==> Passes(db, customer, upload, today, c))
            && (upload.Readable? && r.Err? ==>
                  && !Passes(db, customer, upload, today, CheckOf(r.error))
                  && (forall c :: 0 <= c < CheckOf(r.error) ==> Passes(db, customer, upload, today, c))
                  && (CheckOf(r.error) == 6 ==> r.error.Overlaps? && IsFirstMet(db.cafs, customer, upload.caf, r.error.caf)))
  {
    hide RangesMeet;
    if upload.Readable? {
      var account := Account(customer, upload.caf.docType);
      FirstOverlapIsFirst(db.cafs, account, upload.caf.folioFrom, upload.caf.folioTo, 0);
      hide FirstOverlap;
    }
  }

  lemma {:induction false} FirstOverlapIsFirst(cafs: seq<CafRow>, account: Account, folioFrom: int, folioTo: int, i: nat)
    requires i <= |cafs|
    ensures var r := FirstOverlap(cafs, account, folioFrom, folioTo, i);
            r.Some? ==> forall j :: i <= j < r.value ==> !RangesMeet(cafs[j], account, folioFrom, folioTo)
    decreases |cafs| - i
  {
    if i < |cafs| {
      FirstOverlapIsFirst(cafs, account, folioFrom, folioTo, i + 1);
    }
  }

  /** A CAF is refused exactly when it has expired, or has a key and it is that of the other environment: the
      key 100 is certification's. */
  lemma RefusedExactly(file: Caf, certification: bool, today: Date)
    ensures Refused(file, certification, today) <==>
              || (file.expiresOn.Some? && today > file.expiresOn.value)
              || (file.keyId.Some? && (file.keyId == Some(100) <==> !certification))
  {
  }

  /** Reading a row completes what it lacks from its file, the expiry together with the authorisation, and
      replaces nothing it has. */
  lemma CompletedExactly(row: CafRow)
    ensures var done := Backfilled(row);
            && done.keyId == (if row.keyId != None then row.keyId else row.file.keyId)
            && done.authorizedOn == (if row.authorizedOn != None then row.authorizedOn else row.file.authorizedOn)
            && done.expiresOn == (if row.authorizedOn == None && row.file.authorizedOn != None then row.file.expiresOn else row.expiresOn)
            && done == row.(keyId := done.keyId, authorizedOn := done.authorizedOn, expiresOn := done.expiresOn)
  {
  }

  /** Two ranges meet exactly when some folio lies in both. */
  lemma MeetingIsSharing(row: CafRow, account: Account, folioFrom: int, folioTo: int)
    requires row.folioFrom <= row.folioTo && folioFrom <= folioTo
    ensures RangesMeet(row, account, folioFrom, folioTo) <==>
            row.account == account && exists f :: row.Contains(f) && folioFrom <= f <= folioTo
  {
    var f := Max(row.folioFrom, folioFrom);
    if RangesMeet(row, account, folioFrom, folioTo) {
      assert row.Contains(f) && folioFrom <= f <= folioTo;
    }
  }

  /** Retiring answers for a CAF that is not there or not the customer's, and then for one already
      retired; otherwise that CAF is retired and nothing else changes. */
  lemma RetireAnswersExactly(db: Db, customer: int, id: int)
    ensures var (after, r) := RetireCaf(db, customer, id);
            && (r == Err(NotYourCaf) <==> !(0 <= id < |db.cafs| && db.cafs[id].account.customer == customer))
            && (r == Err(AlreadyRetired) <==> 0 <= id < |db.cafs| && db.cafs[id].account.customer == customer && db.cafs[id].exhausted)
            && (r.Ok? ==> 0 <= id < |db.cafs| && r.value == id && after == db.(cafs := db.cafs[id := db.cafs[id].(exhausted := true)]))
            && (r.Err? ==> after == db)
  {
  }

  lemma StepKeepsExhausted(db: Db, event: Event, i: nat)
    requires Sound(db) && i < |db.cafs| && db.cafs[i].exhausted
    ensures i < |Step(db, event).0.cafs| && Step(db, event).0.cafs[i].exhausted
    ensures forall t <- Step(db, event).1 :: t.caf != i
  {
    hide NextFolio, Sound, CheckCaf;
    match event
    case Take(account, today, requestId) =>
      TakeKeepsSound(db, account, today, requestId);
      if account in db.pointers {
        NextFolioMeaning(db, account, today, requestId);
      } else {
        TakeWithoutPointer(db, account, today, requestId);
      }
    case _ =>
  }

  /** From a CAF that was retired or used up no folio is ever delivered again, whatever happens. */
  lemma {:induction false} ExhaustedDeliversNothing(db: Db, events: seq<Event>, i: nat)
    requires Sound(db) && i < |db.cafs| && db.cafs[i].exhausted
    ensures i < |Run(db, events).0.cafs| && Run(db, events).0.cafs[i].exhausted
    ensures forall t <- Run(db, events).1 :: t.caf != i
  {
    if events != [] {
      var start := events[..|events| - 1];
      ExhaustedDeliversNothing(db, start, i);
      EveryRunIsAHistory(db, start);
      hide Sound, Step;
      StepKeepsExhausted(Run(db, start).0, events[|events| - 1], i);
    }
  }

  // ---------------------------------------------------------------- the report: counts

  /** The delivered folios of an account with one status. */
  function DeliveredWith(db: Db, account: Account, status: Status): set<FolioKey> {
    set k <- db.assignments | k.account == account && db.assignments[k].status == status
  }

  /** Each count of the report is that of its own outcome. */
  lemma ReportCountsExactly(db: Db, account: Account, today: Date)
    ensures var report := ReportOf(db, account, today);
            && report.issued == |DeliveredWith(db, account, Issued)| && report.failed == |DeliveredWith(db, account, Failed)|
            && report.unknown == |DeliveredWith(db, account, Unknown)| && report.open == |DeliveredWith(db, account, Assigned)|
            && report.docType == account.docType
            && report.lastFolio == if account in db.pointers then db.pointers[account] else 0
  {
    forall status ensures KeysWith(db, account, status) == DeliveredWith(db, account, status) {
    }
    hide AccountRows, UsableRemaining;
  }

  lemma SizeWithOneMore(s: set<FolioKey>, k: FolioKey)
    requires k !in s
    ensures |s + {k}| == |s| + 1
  {
  }

  lemma MarkMovesKey(db: Db, key: FolioKey, outcome: Status, status: Status)
    requires key in db.assignments && db.assignments[key].status == Assigned && outcome != Assigned
    ensures var before, after := DeliveredWith(db, key.account, status), DeliveredWith(MarkAssignment(db, key, outcome), key.account, status);
            |after| == |before| + (if status == outcome then 1 else 0) - (if status == Assigned then 1 else 0)
  {
    var before, after := DeliveredWith(db, key.account, status), DeliveredWith(MarkAssignment(db, key, outcome), key.account, status);
    if status == outcome {
      assert after == before + {key};
      SizeWithOneMore(before, key);
    } else if status == Assigned {
      assert before == after + {key};
      SizeWithOneMore(after, key);
    } else {
      assert after == before;
    }
  }

  /** Recording the outcome of an open folio moves it, in the report of its account, from the open ones
      to those of that outcome, and changes no other count. */
  lemma MarkMovesOneCount(db: Db, key: FolioKey, outcome: Status, today: Date)
    requires key in db.assignments && db.assignments[key].status == Assigned && outcome != Assigned
    ensures var before, after := ReportOf(db, key.account, today), ReportOf(MarkAssignment(db, key, outcome), key.account, today);
            && after.open == before.open - 1
            && after.issued == before.issued + (if outcome == Issued then 1 else 0)
            && after.failed == before.failed + (if outcome == Failed then 1 else 0)
            && after.unknown == before.unknown + (if outcome == Unknown then 1 else 0)
            && after.lastFolio == before.lastFolio
  {
    ReportCountsExactly(db, key.account, today);
    ReportCountsExactly(MarkAssignment(db, key, outcome), key.account, today);
    MarkMovesKey(db, key, outcome, Issued);
    MarkMovesKey(db, key, outcome, Failed);
    MarkMovesKey(db, key, outcome, Unknown);
    MarkMovesKey(db, key, outcome, Assigned);
    hide DeliveredWith, ReportOf;
  }

  // ---------------------------------------------------------------- the report: rows

  /** What a list of report rows adds up to. */
  function SumRows(rows: seq<ReportRow>, value: ReportRow -> int): int {
    if rows == [] then 0 else SumRows(rows[..|rows| - 1], value) + value(rows[|rows| - 1])
  }

  lemma {:induction false} AccountRowsAreSorted(cafs: seq<CafRow>, account: Account, n: nat)
    requires n <= |cafs|
    ensures Ascending(cafs, AccountRows(cafs, account, n)) && NoRepeats(AccountRows(cafs, account, n))
  {
    if n > 0 {
      AccountRowsAreSorted(cafs, account, n - 1);
      AccountRowsAreOfAccount(cafs, account, n - 1);
      if cafs[n - 1].account == account {
        InsertKeepsAscending(cafs, n - 1, AccountRows(cafs, account, n - 1));
        InsertOnce(cafs, n - 1, AccountRows(cafs, account, n - 1));
      }
    }
  }

  function CafsOf(rows: seq<ReportRow>): (r: seq<nat>)
    ensures |r| == |rows| && forall m :: 0 <= m < |rows| ==> r[m] == rows[m].caf
  {
    seq(|rows|, m requires 0 <= m < |rows| => rows[m].caf)
  }

  /** Folios of the row past the pointer of its account. */
  function FoliosAhead(db: Db, row: CafRow): int {
    if row.folioTo <= LastFolio(db, row.account) then 0
    else if row.folioFrom > LastFolio(db, row.account) then row.folioTo - row.folioFrom + 1
    else row.folioTo - LastFolio(db, row.account)
  }

  /** The report has one row for each CAF of the account, by ascending range; it says how many of its
      folios lie ahead of the pointer and how many were never delivered. */
  lemma ReportRowsExactly(db: Db, account: Account, today: Date)
    ensures var rows := ReportOf(db, account, today).rows;
            && ListsOnce(db.cafs, CafsOf(rows), (row: CafRow) => row.account == account)
            && forall r <- rows :: r.caf < |db.cafs|
                 && r.remaining == Max(0, FoliosAhead(db, db.cafs[r.caf]))
                 && r.unused == db.cafs[r.caf].folioTo - db.cafs[r.caf].folioFrom + 1 - |UsedOf(db, db.cafs[r.caf])|
                 && r.state == ReportState(db, db.cafs[r.caf], today)
  {
    AccountRowsAreSorted(db.cafs, account, |db.cafs|);
    AccountRowsAreOfAccount(db.cafs, account, |db.cafs|);
    var order := AccountRows(db.cafs, account, |db.cafs|);
    assert CafsOf(ReportOf(db, account, today).rows) == order;
    hide AccountRows, Ascending, StateOf, UsedOf;
  }

  lemma {:induction false} SumRowsOver(db: Db, order: seq<nat>, today: Date, value: ReportRow -> int, f: nat -> int)
    requires Indexes(order, db.cafs) && forall i :: 0 <= i < |order| ==> f(order[i]) == value(RowReport(db, order[i], today))
    ensures SumRows(seq(|order|, m requires 0 <= m < |order| => RowReport(db, order[m], today)), value) == SumOver(f, order)
  {
    hide RowReport;
    if order != [] {
      var n := |order| - 1;
      SumRowsOver(db, order[..n], today, value, f);
      assert seq(|order|, m requires 0 <= m < |order| => RowReport(db, order[m], today))[..n]
          == seq(n, m requires 0 <= m < n => RowReport(db, order[..n][m], today));
    }
  }

  lemma SumRowsOfReport(db: Db, account: Account, today: Date, ofRow: ReportRow -> int, ofCaf: CafRow -> int)
    requires forall i: nat :: i < |db.cafs| ==> ofRow(RowReport(db, i, today)) == ofCaf(db.cafs[i])
    ensures SumRows(ReportOf(db, account, today).rows, ofRow) == SumTo(OfAccount(db, account, ofCaf), |db.cafs|)
  {
    var order := AccountRows(db.cafs, account, |db.cafs|);
    AccountRowsAreOfAccount(db.cafs, account, |db.cafs|);
    SumOverAccount(db, account, ofCaf, |db.cafs|);
    hide AccountRows, RowReport, SumOver, SumTo;
    forall i | 0 <= i < |order| ensures OfAccount(db, account, ofCaf)(order[i]) == ofRow(RowReport(db, order[i], today)) {
      assert order[i] in order;
    }
    SumRowsOver(db, order, today, ofRow, OfAccount(db, account, ofCaf));
  }

  /** What a row adds to the usable total. */
  function UsableOf(row: ReportRow): int {
    if row.state == InUse || row.state == Pending then row.remaining else 0
  }

  /** The usable total is that of the rows in use and pending. */
  lemma UsableIsOfRows(db: Db, account: Account, today: Date)
    ensures var report := ReportOf(db, account, today);
            report.usableRemaining == SumRows(report.rows, row => UsableOf(row))
  {
    SumRowsOfReport(db, account, today, row => UsableOf(row), row => Usable(db, row, today));
  }

  /** The usable total of the report is the number of allocations that succeed that day: from complete
      rows, after any run that left no two ranges meeting. */
  lemma ReportIsKept(db: Db, events: seq<Event>, account: Account, today: Date, requestId: string, n: nat)
    requires Valid(db) && AllComplete(db)
    requires Disjoint(Run(db, events).0.cafs) && account in Run(db, events).0.pointers
    ensures var now := Run(db, events).0;
            var usable := ReportOf(now, account, today).usableRemaining;
            |Run(now, Takes(account, today, requestId, n)).1| == if n <= usable then n else usable
  {
    ReportForecastsAllocator(db, events, account, today, requestId, n);
    hide Run, Valid, AllComplete, UsableRemaining;
  }

  /** And it accounts for every folio: the sizes of the CAFs are the four counts and the unused folios
      of the rows together, exactly when no delivered folio lies in two CAFs. */
  lemma ReportAddsUpExactly(db: Db, account: Account, today: Date)
    requires Sound(db)
    ensures var report := ReportOf(db, account, today);
            SumTo(OfAccount(db, account, row => Size(row)), |db.cafs|) ==
              report.issued + report.failed + report.unknown + report.open + SumRows(report.rows, (row: ReportRow) => row.unused) <==>
            OwnedOnce(db, account, |db.cafs|)
  {
    FoliosAreConservedExactly(db, account);
    SumRowsOfReport(db, account, today, (row: ReportRow) => row.unused, row => Unused(db, row));
    hide Sound, OwnedOnce, SumTo, SumRows, CountStatus, Size;
  }

  // ---------------------------------------------------------------- the report: states

  /** What each state says of a CAF. One of another environment is always said to be, and one of the right
      one that expired with folios unused is always said to have. */
  lemma StateMeans(db: Db, i: nat, today: Date)
    requires i < |db.cafs|
    ensures var row := db.cafs[i];
            var last, state := LastFolio(db, row.account), ReportState(db, row, today);
            var foreign := row.keyId.Some? && (row.keyId.value == CERTIFICATION_IDK) != db.InCertification(row.account.customer);
            var expired := row.expiresOn.Some? && row.expiresOn.value < today && Unused(db, row) != 0;
            && (state == WrongEnvironment <==> foreign)
            && (state == PastExpiry <==> expired && !foreign)
            && (state == UsedUp <==> row.folioTo <= last && !foreign && !expired)
            && (state == Retired <==> row.exhausted && row.folioTo > last && !foreign && !expired)
            && (state == InUse ==> row.folioFrom <= last + 1 <= row.folioTo && !row.exhausted)
            && (state == Pending ==> last + 1 < row.folioFrom && !row.exhausted)
  {
    hide Unused, LastFolio;
  }

  /** A CAF that was offered is shown as retired once it is, and no other changes. */
  lemma RetiringIsShown(db: Db, customer: int, id: int, i: nat, today: Date)
    requires RetireCaf(db, customer, id).1.Ok? && i < |db.cafs|
    ensures var after := RetireCaf(db, customer, id).0;
            var before, now := ReportState(db, db.cafs[i], today), ReportState(after, after.cafs[i], today);
            now == if i == id && before in {InUse, Pending} then Retired else before
  {
    var after := RetireCaf(db, customer, id).0;
    assert UsedOf(after, after.cafs[i]) == UsedOf(db, db.cafs[i]);
  }
}
