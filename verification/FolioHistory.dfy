/**
 What every run of the folio allocator keeps: the table invariant, the order in which folios
 are delivered, and the reservation round trip.
 */
module FolioHistory {
  import opened Wrappers
  import opened FolioStore

  // ---------------------------------------------------------------- the table invariant

  /** A row agrees with its file, except that columns stored late may still be missing. */
  ghost predicate RowConsistent(row: CafRow) {
    && row.file.WellFormed()
    && row.folioFrom == row.file.folioFrom
    && row.folioTo == row.file.folioTo
    && row.account.docType == row.file.docType
    && (row.keyId == row.file.keyId || row.keyId == None)
    && (|| (row.authorizedOn == row.file.authorizedOn && row.expiresOn == row.file.expiresOn)
        || (row.authorizedOn == None && row.expiresOn == None))
  }

  ghost predicate Disjoint(cafs: seq<CafRow>) {
    forall i, j :: 0 <= i < j < |cafs| && cafs[i].account == cafs[j].account ==>
      cafs[i].folioTo < cafs[j].folioFrom || cafs[j].folioTo < cafs[i].folioFrom
  }

  /** The pointer is 0, or the folio it names was delivered. */
  ghost predicate PointersDelivered(db: Db) {
    forall a {:trigger db.pointers[a]} | a in db.pointers ::
      db.pointers[a] == 0 || (db.pointers[a] > 0 && FolioKey(a, db.pointers[a]) in db.assignments)
  }

  /** Every delivered folio is at or below its pointer and inside some CAF. */
  ghost predicate AssignmentsOwned(db: Db) {
    forall k <- db.assignments ::
      && k.account in db.pointers && k.folio <= db.pointers[k.account]
      && exists i :: 0 <= i < |db.cafs| && Owns(db.cafs[i], k)
  }

  /** `g` and `k` are folios of CAF `i`, and `g` does not come after `k`. */
  ghost predicate Precedes(cafs: seq<CafRow>, i: int, g: FolioKey, k: FolioKey) {
    0 <= i < |cafs| && Owns(cafs[i], g) && Owns(cafs[i], k) && g.folio <= k.folio
  }

  /** The delivered folios of every CAF form a prefix of its range. */
  ghost predicate PrefixConsumed(db: Db) {
    forall i, g, k {:trigger Precedes(db.cafs, i, g, k)} ::
      k in db.assignments && Precedes(db.cafs, i, g, k) ==> g in db.assignments
  }

  /** What every transaction keeps, however loads interleave. */
  ghost predicate Sound(db: Db) {
    && (forall i :: 0 <= i < |db.cafs| ==> RowConsistent(db.cafs[i]) && db.cafs[i].account in db.pointers)
    && PointersDelivered(db)
    && AssignmentsOwned(db)
  }

  /** And what holds as long as no two ranges of an account meet. */
  ghost predicate Valid(db: Db) {
    Sound(db) && Disjoint(db.cafs) && PrefixConsumed(db)
  }

  // ---------------------------------------------------------------- what one allocation delivers

  ghost predicate Eligible(db: Db, account: Account, i: int, today: Date)
    requires account in db.pointers
  {
    && 0 <= i < |db.cafs|
    && Candidate(db.cafs[i], account, db.pointers[account] + 1)
    && !Refused(db.cafs[i].file, db.InCertification(account.customer), today)
  }

  ghost predicate Ascending(cafs: seq<CafRow>, order: seq<nat>)
    requires Indexes(order, cafs)
  {
    forall a, b :: 0 <= a < b < |order| ==> cafs[order[a]].folioFrom <= cafs[order[b]].folioFrom
  }

  lemma {:induction false} InsertAdds(cafs: seq<CafRow>, i: nat, order: seq<nat>)
    requires i < |cafs| && Indexes(order, cafs)
    ensures forall j :: j in InsertByFrom(cafs, i, order) <==> j == i || j in order
  {
    if order == [] || cafs[i].folioFrom <= cafs[order[0]].folioFrom {
    } else {
      InsertAdds(cafs, i, order[1..]);
      assert order == [order[0]] + order[1..];
    }
  }

  lemma {:induction false} InsertKeepsAscending(cafs: seq<CafRow>, i: nat, order: seq<nat>)
    requires i < |cafs| && Indexes(order, cafs) && Ascending(cafs, order)
    ensures Ascending(cafs, InsertByFrom(cafs, i, order))
  {
    if order == [] || cafs[i].folioFrom <= cafs[order[0]].folioFrom {
    } else {
      var rest := InsertByFrom(cafs, i, order[1..]);
      InsertKeepsAscending(cafs, i, order[1..]);
      InsertAdds(cafs, i, order[1..]);
      forall b | 0 <= b < |rest| ensures cafs[order[0]].folioFrom <= cafs[rest[b]].folioFrom {
        assert rest[b] in rest;
        if rest[b] != i {
          assert rest[b] in order[1..];
        }
      }
    }
  }

  /** The allocator's query returns exactly the candidates, by ascending range. */
  lemma {:induction false} CandidatesAreSorted(cafs: seq<CafRow>, account: Account, target: int, n: nat)
    requires n <= |cafs|
    ensures Ascending(cafs, Candidates(cafs, account, target, n))
    ensures forall j: nat :: j in Candidates(cafs, account, target, n) <==> j < n && Candidate(cafs[j], account, target)
  {
    hide Candidate;
    if n > 0 {
      CandidatesAreSorted(cafs, account, target, n - 1);
      if Candidate(cafs[n - 1], account, target) {
        var rest := Candidates(cafs, account, target, n - 1);
        InsertAdds(cafs, n - 1, rest);
        InsertKeepsAscending(cafs, n - 1, rest);
      }
    }
  }

  lemma {:induction false} FirstUsableMeaning(cafs: seq<CafRow>, order: seq<nat>, certification: bool, today: Date)
    requires Indexes(order, cafs)
    ensures var k := FirstUsable(cafs, order, certification, today);
            && (forall m :: 0 <= m < k ==> Refused(cafs[order[m]].file, certification, today))
            && (k < |order| ==> !Refused(cafs[order[k]].file, certification, today))
  {
    hide Refused;
    if order == [] || !Refused(cafs[order[0]].file, certification, today) {
    } else {
      FirstUsableMeaning(cafs, order[1..], certification, today);
      forall m | 0 <= m < FirstUsable(cafs, order, certification, today)
        ensures Refused(cafs[order[m]].file, certification, today)
      {
        if m > 0 {
          assert order[m] == order[1..][m - 1];
        }
      }
    }
  }

  /** `i` is the eligible CAF with the lowest range. */
  ghost predicate LowestEligible(db: Db, account: Account, i: int, today: Date)
    requires account in db.pointers
  {
    && Eligible(db, account, i, today)
    && forall j :: Eligible(db, account, j, today) ==> db.cafs[i].folioFrom <= db.cafs[j].folioFrom
  }

  /** Same CAF: only `exhausted` and the late columns may differ. */
  ghost predicate SameCaf(r: CafRow, s: CafRow) {
    && r.account == s.account && r.folioFrom == s.folioFrom && r.folioTo == s.folioTo && r.file == s.file
    && (RowConsistent(r) ==> RowConsistent(s))
  }

  /** Rows may be completed, exhausted or appended, never changed otherwise or removed. */
  ghost predicate CafsExtend(before: seq<CafRow>, after: seq<CafRow>) {
    |before| <= |after| && forall i :: 0 <= i < |before| ==> SameCaf(before[i], after[i])
  }

  /** The tables after one folio of account `account` was delivered from CAF `d.caf`. */
  ghost predicate Delivered(db: Db, after: Db, account: Account, d: Delivery, requestId: string)
    requires account in db.pointers && d.caf < |db.cafs|
  {
    && CafsExtend(db.cafs, after.cafs) && |after.cafs| == |db.cafs|
    && after.environments == db.environments
    && after.pointers == db.pointers[account := d.folio]
    && after.assignments == db.assignments[FolioKey(account, d.folio) := Assignment(requestId, Assigned)]
    && forall i :: 0 <= i < |db.cafs| ==>
         (after.cafs[i].exhausted <==> db.cafs[i].exhausted || (i == d.caf && d.folio >= db.cafs[i].folioTo))
  }

  /** The tables after an allocation that found nothing: only late columns were completed. */
  ghost predicate OnlyCompleted(db: Db, after: Db) {
    && CafsExtend(db.cafs, after.cafs) && |after.cafs| == |db.cafs|
    && after == db.(cafs := after.cafs)
    && forall i :: 0 <= i < |db.cafs| ==> after.cafs[i].exhausted == db.cafs[i].exhausted
  }

  lemma BackfillExtends(cafs: seq<CafRow>, visited: seq<nat>)
    ensures CafsExtend(cafs, BackfillRows(cafs, visited))
  {
  }

  /** The first usable candidate, in ascending order of range, is the lowest eligible CAF. */
  lemma FirstUsableIsLowest(db: Db, account: Account, today: Date, order: seq<nat>, k: nat)
    requires account in db.pointers && Indexes(order, db.cafs) && Ascending(db.cafs, order)
    requires forall j: nat :: j in order <==> j < |db.cafs| && Candidate(db.cafs[j], account, db.pointers[account] + 1)
    requires k <= |order|
    requires forall m :: 0 <= m < k ==> Refused(db.cafs[order[m]].file, db.InCertification(account.customer), today)
    requires k < |order| ==> !Refused(db.cafs[order[k]].file, db.InCertification(account.customer), today)
    ensures k < |order| ==> LowestEligible(db, account, order[k], today)
    ensures k == |order| ==> forall i :: !Eligible(db, account, i, today)
  {
    hide Refused, Candidate;
    forall i | Eligible(db, account, i, today)
      ensures exists m :: k <= m < |order| && order[m] == i
    {
      assert i in order;
      var m :| 0 <= m < |order| && order[m] == i;
    }
    if k < |order| {
      assert order[k] in order;
    }
  }

  lemma NextFolioChoice(db: Db, account: Account, today: Date, requestId: string)
    requires account in db.pointers
    ensures var r := NextFolio(db, account, today, requestId).1;
            match r
            case Ok(d) =>
              && LowestEligible(db, account, d.caf, today)
              && d.folio == Max(db.pointers[account] + 1, db.cafs[d.caf].folioFrom)
            case Err(_) => forall i :: !Eligible(db, account, i, today)
  {
    hide Candidates, FirstUsable, BackfillRows, Deliver, Eligible, Refused, LowestEligible, Candidate;
    var order := Candidates(db.cafs, account, db.pointers[account] + 1, |db.cafs|);
    CandidatesAreSorted(db.cafs, account, db.pointers[account] + 1, |db.cafs|);
    FirstUsableMeaning(db.cafs, order, db.InCertification(account.customer), today);
    var k := FirstUsable(db.cafs, order, db.InCertification(account.customer), today);
    FirstUsableIsLowest(db, account, today, order, k);
  }

  lemma BackfillCompletes(db: Db, visited: seq<nat>)
    ensures OnlyCompleted(db, db.(cafs := BackfillRows(db.cafs, visited)))
  {
    BackfillExtends(db.cafs, visited);
  }

  lemma DeliverAfterCompletion(db: Db, filled: Db, account: Account, d: Delivery, requestId: string)
    requires account in db.pointers && d.caf < |db.cafs| && OnlyCompleted(db, filled)
    ensures Delivered(db, Deliver(filled, account, d.caf, d.folio, requestId), account, d, requestId)
  {
    var after := Deliver(filled, account, d.caf, d.folio, requestId);
    forall i | 0 <= i < |db.cafs| ensures SameCaf(db.cafs[i], after.cafs[i]) {
      assert SameCaf(db.cafs[i], filled.cafs[i]);
    }
    assert SameCaf(db.cafs[d.caf], filled.cafs[d.caf]);
  }

  lemma NextFolioEffect(db: Db, account: Account, today: Date, requestId: string)
    requires account in db.pointers
    ensures var (after, r) := NextFolio(db, account, today, requestId);
            match r
            case Ok(d) => d.caf < |db.cafs| && Delivered(db, after, account, d, requestId)
            case Err(_) => OnlyCompleted(db, after)
  {
    hide Candidates, FirstUsable, BackfillRows, OnlyCompleted, Delivered, Deliver;
    var order := Candidates(db.cafs, account, db.pointers[account] + 1, |db.cafs|);
    var k := FirstUsable(db.cafs, order, db.InCertification(account.customer), today);
    if k == |order| {
      BackfillCompletes(db, order);
    } else {
      BackfillCompletes(db, order[..k + 1]);
      var r := NextFolio(db, account, today, requestId).1;
      assert r.value.caf == order[k];
      DeliverAfterCompletion(db, db.(cafs := BackfillRows(db.cafs, order[..k + 1])), account, r.value, requestId);
    }
  }

  /** The allocator fails exactly when no CAF is eligible; otherwise it delivers, from the
      eligible CAF with the lowest range, the first folio above the pointer that it holds. */
  lemma NextFolioMeaning(db: Db, account: Account, today: Date, requestId: string)
    requires account in db.pointers
    ensures var (after, r) := NextFolio(db, account, today, requestId);
            match r
            case Ok(d) =>
              && LowestEligible(db, account, d.caf, today)
              && d.folio == Max(db.pointers[account] + 1, db.cafs[d.caf].folioFrom)
              && Delivered(db, after, account, d, requestId)
            case Err(_) =>
              && (forall i :: !Eligible(db, account, i, today))
              && OnlyCompleted(db, after)
  {
    NextFolioChoice(db, account, today, requestId);
    NextFolioEffect(db, account, today, requestId);
  }

  // ---------------------------------------------------------------- runs

  /** One transaction of any worker. Each carries the date it happens on: clocks move freely. `Insert`
      stores a CAF whose range was checked earlier, against other tables. */
  datatype Event =
    | Load(customer: int, upload: CafUpload, today: Date)
    | Insert(customer: int, caf: ParsedCaf)
    | Retire(customer: int, id: int)
    | Move(customer: int, environment: Environment)
    | Take(account: Account, today: Date, requestId: string)
    | Mark(key: FolioKey, status: Status)

  datatype Taken = Taken(key: FolioKey, caf: nat)

  function Step(db: Db, event: Event): (Db, seq<Taken>) {
    match event
    case Load(customer, upload, today) => (AddCaf(db, customer, upload, today).0, [])
    case Insert(customer, caf) => (InsertCaf(db, customer, caf), [])
    case Retire(customer, id) => (RetireCaf(db, customer, id).0, [])
    case Move(customer, environment) => (db.(environments := db.environments[customer := environment]), [])
    case Mark(key, status) => (MarkAssignment(db, key, status), [])
    case Take(account, today, requestId) =>
      var (after, r) := NextFolio(db, account, today, requestId);
      (after, if r.Ok? then [Taken(FolioKey(account, r.value.folio), r.value.caf)] else [])
  }

  /** The tables after a run, and the folios it delivered, in order. */
  function Run(db: Db, events: seq<Event>): (Db, seq<Taken>) {
    if events == [] then (db, [])
    else
      var (middle, taken) := Run(db, events[..|events| - 1]);
      var (after, more) := Step(middle, events[|events| - 1]);
      (after, taken + more)
  }

  /** The folio lies in the chosen CAF, above everything delivered to the account. */
  ghost predicate NextIn(db: Db, account: Account, d: Delivery)
    requires account in db.pointers
  {
    && d.caf < |db.cafs| && Owns(db.cafs[d.caf], FolioKey(account, d.folio))
    && d.folio == Max(db.pointers[account] + 1, db.cafs[d.caf].folioFrom)
  }

  lemma ExtensionOwnsTheSame(before: seq<CafRow>, after: seq<CafRow>)
    requires CafsExtend(before, after)
    ensures forall i, k :: 0 <= i < |before| ==> Owns(after[i], k) == Owns(before[i], k)
    ensures |before| == |after| && Disjoint(before) ==> Disjoint(after)
  {
    forall i, k | 0 <= i < |before| ensures Owns(after[i], k) == Owns(before[i], k) {
      assert SameCaf(before[i], after[i]);
    }
    if |before| == |after| && Disjoint(before) {
      forall i, j | 0 <= i < j < |after| && after[i].account == after[j].account
        ensures after[i].folioTo < after[j].folioFrom || after[j].folioTo < after[i].folioFrom
      {
        assert SameCaf(before[i], after[i]) && SameCaf(before[j], after[j]);
      }
    }
  }

  lemma UniqueOwner(cafs: seq<CafRow>, key: FolioKey, i: int, j: int)
    requires Disjoint(cafs) && 0 <= i < |cafs| && 0 <= j < |cafs| && Owns(cafs[i], key) && Owns(cafs[j], key)
    ensures i == j
  {
  }

  lemma DeliveryKeepsPrefix(db: Db, after: Db, account: Account, d: Delivery, requestId: string)
    requires Valid(db) && account in db.pointers && NextIn(db, account, d)
    requires Delivered(db, after, account, d, requestId)
    ensures PrefixConsumed(after)
  {
    ExtensionOwnsTheSame(db.cafs, after.cafs);
    var taken := FolioKey(account, d.folio);
    var last := FolioKey(account, db.pointers[account]);
    forall i, g, k | k in after.assignments && Precedes(after.cafs, i, g, k) ensures g in after.assignments {
      assert Owns(db.cafs[i], g) && Owns(db.cafs[i], k);
      if k != taken {
        assert Precedes(db.cafs, i, g, k);
      } else {
        UniqueOwner(db.cafs, k, i, d.caf);
        if g != taken {
          assert last in db.assignments && Precedes(db.cafs, i, g, last);
        }
      }
    }
  }

  lemma DeliveryKeepsOwned(db: Db, after: Db, account: Account, d: Delivery, requestId: string)
    requires AssignmentsOwned(db) && account in db.pointers && NextIn(db, account, d)
    requires Delivered(db, after, account, d, requestId)
    ensures AssignmentsOwned(after)
  {
    ExtensionOwnsTheSame(db.cafs, after.cafs);
    hide SameCaf;
    forall k | k in after.assignments
      ensures && k.account in after.pointers && k.folio <= after.pointers[k.account]
              && exists i :: 0 <= i < |after.cafs| && Owns(after.cafs[i], k)
    {
      if k == FolioKey(account, d.folio) {
        assert Owns(after.cafs[d.caf], k);
      } else {
        var i :| 0 <= i < |db.cafs| && Owns(db.cafs[i], k);
        assert Owns(after.cafs[i], k);
      }
    }
  }

  lemma DeliveryKeepsSound(db: Db, after: Db, account: Account, d: Delivery, requestId: string)
    requires Sound(db) && account in db.pointers && NextIn(db, account, d)
    requires Delivered(db, after, account, d, requestId)
    ensures Sound(after)
    ensures FolioKey(account, d.folio) !in db.assignments
  {
    ExtensionOwnsTheSame(db.cafs, after.cafs);
    DeliveryKeepsOwned(db, after, account, d, requestId);
    forall i | 0 <= i < |after.cafs| ensures RowConsistent(after.cafs[i]) && after.cafs[i].account in after.pointers {
      assert SameCaf(db.cafs[i], after.cafs[i]);
    }
  }

  lemma DeliveryKeepsValid(db: Db, after: Db, account: Account, d: Delivery, requestId: string)
    requires Valid(db) && account in db.pointers && NextIn(db, account, d)
    requires Delivered(db, after, account, d, requestId)
    ensures Valid(after)
  {
    DeliveryKeepsSound(db, after, account, d, requestId);
    ExtensionOwnsTheSame(db.cafs, after.cafs);
    DeliveryKeepsPrefix(db, after, account, d, requestId);
    hide Sound, PrefixConsumed, Disjoint;
  }

  lemma TakeWithoutPointer(db: Db, account: Account, today: Date, requestId: string)
    requires account !in db.pointers
    ensures NextFolio(db, account, today, requestId) == (db, Err(NoPointer))
  {
  }

  lemma TakeKeepsSound(db: Db, account: Account, today: Date, requestId: string)
    requires Sound(db)
    ensures var (after, r) := NextFolio(db, account, today, requestId);
            && Sound(after) && CafsExtend(db.cafs, after.cafs)
            && (r.Ok? ==> account in db.pointers && NextIn(db, account, r.value)
                          && Delivered(db, after, account, r.value, requestId)
                          && FolioKey(account, r.value.folio) !in db.assignments)
            && (r.Err? ==> OnlyCompleted(db, after))
  {
    hide NextFolio;
    var (after, r) := NextFolio(db, account, today, requestId);
    if account !in db.pointers {
      TakeWithoutPointer(db, account, today, requestId);
    } else {
      NextFolioMeaning(db, account, today, requestId);
      if r.Ok? {
        assert NextIn(db, account, r.value);
        hide Sound;
        DeliveryKeepsSound(db, after, account, r.value, requestId);
      } else {
        hide Sound;
        KeepsSoundIfOwnedAlike(db, after);
      }
    }
  }

  lemma TakeKeepsValid(db: Db, account: Account, today: Date, requestId: string)
    requires Valid(db)
    ensures var (after, r) := NextFolio(db, account, today, requestId);
            && Valid(after) && CafsExtend(db.cafs, after.cafs)
            && (r.Ok? ==> account in db.pointers && NextIn(db, account, r.value)
                          && Delivered(db, after, account, r.value, requestId)
                          && FolioKey(account, r.value.folio) !in db.assignments)
            && (r.Err? ==> OnlyCompleted(db, after))
  {
    var (after, r) := NextFolio(db, account, today, requestId);
    TakeKeepsSound(db, account, today, requestId);
    hide NextFolio, Valid;
    if r.Ok? {
      DeliveryKeepsValid(db, after, account, r.value, requestId);
    } else {
      KeepsValidIfOwnedAlike(db, after);
    }
  }

  /** Its range meets no row of its account. */
  ghost predicate MeetsNone(cafs: seq<CafRow>, customer: int, caf: ParsedCaf) {
    forall i :: 0 <= i < |cafs| ==> !RangesMeet(cafs[i], Account(customer, caf.docType), caf.folioFrom, caf.folioTo)
  }

  lemma InsertKeepsOwned(db: Db, customer: int, caf: ParsedCaf)
    requires AssignmentsOwned(db)
    ensures AssignmentsOwned(InsertCaf(db, customer, caf))
  {
    var after := InsertCaf(db, customer, caf);
    forall k | k in after.assignments ensures exists i :: 0 <= i < |after.cafs| && Owns(after.cafs[i], k) {
      var i :| 0 <= i < |db.cafs| && Owns(db.cafs[i], k);
      assert after.cafs[i] == db.cafs[i];
    }
  }

  lemma InsertExtends(db: Db, customer: int, caf: ParsedCaf)
    ensures var row, after := RowOf(Account(customer, caf.docType), caf), InsertCaf(db, customer, caf);
            && after.cafs == db.cafs + [row] && RowConsistent(row)
            && after.assignments == db.assignments && after.environments == db.environments
            && after.pointers == if row.account in db.pointers then db.pointers else db.pointers[row.account := 0]
    ensures CafsExtend(db.cafs, InsertCaf(db, customer, caf).cafs)
  {
    var after := InsertCaf(db, customer, caf);
    assert forall i :: 0 <= i < |db.cafs| ==> after.cafs[i] == db.cafs[i];
  }

  lemma InsertKeepsSound(db: Db, customer: int, caf: ParsedCaf)
    requires Sound(db)
    ensures var after := InsertCaf(db, customer, caf);
            && Sound(after) && CafsExtend(db.cafs, after.cafs) && after.assignments == db.assignments
            && after.cafs == db.cafs + [RowOf(Account(customer, caf.docType), caf)]
  {
    InsertKeepsOwned(db, customer, caf);
    InsertExtends(db, customer, caf);
    hide InsertCaf, RowConsistent, RowOf, CafsExtend, AssignmentsOwned;
  }

  lemma InsertedOwnsNothingYet(db: Db, customer: int, caf: ParsedCaf, k: FolioKey)
    requires AssignmentsOwned(db) && MeetsNone(db.cafs, customer, caf) && k in db.assignments
    ensures !Owns(RowOf(Account(customer, caf.docType), caf), k)
  {
    var i :| 0 <= i < |db.cafs| && Owns(db.cafs[i], k);
    assert !RangesMeet(db.cafs[i], Account(customer, caf.docType), caf.folioFrom, caf.folioTo);
  }

  lemma InsertKeepsPrefix(db: Db, customer: int, caf: ParsedCaf)
    requires AssignmentsOwned(db) && PrefixConsumed(db) && MeetsNone(db.cafs, customer, caf)
    ensures PrefixConsumed(InsertCaf(db, customer, caf))
  {
    var after := InsertCaf(db, customer, caf);
    forall i, g, k | k in after.assignments && Precedes(after.cafs, i, g, k) ensures g in after.assignments {
      InsertedOwnsNothingYet(db, customer, caf, k);
      assert Precedes(db.cafs, i, g, k);
    }
  }

  lemma InsertKeepsDisjointExactly(db: Db, customer: int, caf: ParsedCaf)
    requires Disjoint(db.cafs) && forall i :: 0 <= i < |db.cafs| ==> RowConsistent(db.cafs[i])
    ensures Disjoint(InsertCaf(db, customer, caf).cafs) <==> MeetsNone(db.cafs, customer, caf)
  {
    var row, after := RowOf(Account(customer, caf.docType), caf), InsertCaf(db, customer, caf).cafs;
    assert after == db.cafs + [row];
    if MeetsNone(db.cafs, customer, caf) {
      forall i, j | 0 <= i < j < |after| && after[i].account == after[j].account
        ensures after[i].folioTo < after[j].folioFrom || after[j].folioTo < after[i].folioFrom
      {
        assert !RangesMeet(db.cafs[i], row.account, row.folioFrom, row.folioTo);
      }
    } else {
      var i :| 0 <= i < |db.cafs| && RangesMeet(db.cafs[i], row.account, row.folioFrom, row.folioTo);
      assert after[i] == db.cafs[i] && after[|db.cafs|] == row;
    }
  }

  /** Storing a CAF keeps the invariant exactly when its range meets none of its account then. */
  lemma InsertKeepsValidExactly(db: Db, customer: int, caf: ParsedCaf)
    requires Valid(db)
    ensures Valid(InsertCaf(db, customer, caf)) <==> MeetsNone(db.cafs, customer, caf)
  {
    InsertKeepsSound(db, customer, caf);
    InsertKeepsDisjointExactly(db, customer, caf);
    hide Disjoint, InsertCaf;
    if MeetsNone(db.cafs, customer, caf) {
      InsertKeepsPrefix(db, customer, caf);
    }
  }

  lemma CheckedMeetsNone(db: Db, customer: int, upload: CafUpload, today: Date)
    requires CheckCaf(db, customer, upload, today).Ok?
    ensures upload.Readable? && CheckCaf(db, customer, upload, today).value == upload.caf
    ensures MeetsNone(db.cafs, customer, CheckCaf(db, customer, upload, today).value)
  {
  }

  lemma LoadKeepsSound(db: Db, customer: int, upload: CafUpload, today: Date)
    requires Sound(db)
    ensures var after := AddCaf(db, customer, upload, today).0;
            Sound(after) && CafsExtend(db.cafs, after.cafs) && after.assignments == db.assignments
  {
    hide CheckCaf, InsertCaf;
    var checked := CheckCaf(db, customer, upload, today);
    if checked.Ok? {
      InsertKeepsSound(db, customer, checked.value);
    }
  }

  /** A load whose check and commit no other load comes between keeps the invariant. */
  lemma LoadKeepsValid(db: Db, customer: int, upload: CafUpload, today: Date)
    requires Valid(db)
    ensures var after := AddCaf(db, customer, upload, today).0;
            Valid(after) && CafsExtend(db.cafs, after.cafs) && after.assignments == db.assignments
  {
    LoadKeepsSound(db, customer, upload, today);
    hide CheckCaf, InsertCaf, Valid, Sound;
    var checked := CheckCaf(db, customer, upload, today);
    if checked.Ok? {
      CheckedMeetsNone(db, customer, upload, today);
      InsertKeepsValidExactly(db, customer, checked.value);
    }
  }

  lemma RetireKeepsSound(db: Db, customer: int, id: int)
    requires Sound(db)
    ensures var after := RetireCaf(db, customer, id).0;
            Sound(after) && CafsExtend(db.cafs, after.cafs)
  {
    var after := RetireCaf(db, customer, id).0;
    if after != db {
      assert OwnedAlike(db, after);
      KeepsSoundIfOwnedAlike(db, after);
    }
  }

  lemma RetireKeepsValid(db: Db, customer: int, id: int)
    requires Valid(db)
    ensures var after := RetireCaf(db, customer, id).0;
            Valid(after) && CafsExtend(db.cafs, after.cafs)
  {
    var after := RetireCaf(db, customer, id).0;
    if after != db {
      assert OwnedAlike(db, after);
      KeepsValidIfOwnedAlike(db, after);
    }
  }

  /** Only the outcome of folios, the environments and the `exhausted` marks differ. */
  ghost predicate OwnedAlike(db: Db, after: Db) {
    && CafsExtend(db.cafs, after.cafs) && |after.cafs| == |db.cafs|
    && after.pointers == db.pointers && after.assignments.Keys == db.assignments.Keys
  }

  lemma KeepsOwnedIfOwnedAlike(db: Db, after: Db)
    requires AssignmentsOwned(db) && OwnedAlike(db, after)
    ensures AssignmentsOwned(after)
  {
    ExtensionOwnsTheSame(db.cafs, after.cafs);
    forall k | k in after.assignments ensures exists i :: 0 <= i < |after.cafs| && Owns(after.cafs[i], k) {
      assert k in db.assignments;
      var i :| 0 <= i < |db.cafs| && Owns(db.cafs[i], k);
      assert Owns(after.cafs[i], k);
    }
  }

  lemma KeepsPrefixIfOwnedAlike(db: Db, after: Db)
    requires PrefixConsumed(db) && OwnedAlike(db, after)
    ensures PrefixConsumed(after)
  {
    ExtensionOwnsTheSame(db.cafs, after.cafs);
    forall i, g, k | k in after.assignments && Precedes(after.cafs, i, g, k) ensures g in after.assignments {
      assert k in db.assignments && Precedes(db.cafs, i, g, k);
    }
  }

  lemma KeepsSoundIfOwnedAlike(db: Db, after: Db)
    requires Sound(db) && OwnedAlike(db, after)
    ensures Sound(after)
  {
    hide AssignmentsOwned;
    KeepsOwnedIfOwnedAlike(db, after);
    forall i | 0 <= i < |after.cafs| ensures RowConsistent(after.cafs[i]) && after.cafs[i].account in after.pointers {
      assert SameCaf(db.cafs[i], after.cafs[i]);
    }
  }

  lemma KeepsValidIfOwnedAlike(db: Db, after: Db)
    requires Valid(db) && OwnedAlike(db, after)
    ensures Valid(after)
  {
    hide Sound, PrefixConsumed, Disjoint;
    KeepsSoundIfOwnedAlike(db, after);
    ExtensionOwnsTheSame(db.cafs, after.cafs);
    KeepsPrefixIfOwnedAlike(db, after);
  }

  lemma MarkKeepsSound(db: Db, key: FolioKey, status: Status)
    requires Sound(db)
    ensures Sound(MarkAssignment(db, key, status))
  {
    hide Sound;
    KeepsSoundIfOwnedAlike(db, MarkAssignment(db, key, status));
  }

  lemma MarkKeepsValid(db: Db, key: FolioKey, status: Status)
    requires Valid(db)
    ensures Valid(MarkAssignment(db, key, status))
  {
    hide Valid;
    KeepsValidIfOwnedAlike(db, MarkAssignment(db, key, status));
  }

  lemma StepKeepsSound(db: Db, event: Event)
    requires Sound(db)
    ensures Sound(Step(db, event).0)
    ensures CafsExtend(db.cafs, Step(db, event).0.cafs)
  {
    hide Sound, NextFolio, AddCaf, InsertCaf, RetireCaf;
    match event
    case Take(account, today, requestId) =>
      TakeKeepsSound(db, account, today, requestId);
    case Load(customer, upload, today) =>
      LoadKeepsSound(db, customer, upload, today);
    case Insert(customer, caf) =>
      InsertKeepsSound(db, customer, caf);
    case Retire(customer, id) =>
      RetireKeepsSound(db, customer, id);
    case Move(customer, environment) =>
      KeepsSoundIfOwnedAlike(db, Step(db, event).0);
    case Mark(key, status) =>
      MarkKeepsSound(db, key, status);
  }

  /** Every transaction keeps the whole invariant, except one that stores a CAF whose range has come to
      meet another of its account. */
  lemma StepKeepsValidExactly(db: Db, event: Event)
    requires Valid(db)
    ensures Valid(Step(db, event).0) <==> (event.Insert? ==> MeetsNone(db.cafs, event.customer, event.caf))
    ensures CafsExtend(db.cafs, Step(db, event).0.cafs)
  {
    StepKeepsSound(db, event);
    hide Valid, Sound, CafsExtend, NextFolio, AddCaf, InsertCaf, RetireCaf;
    match event
    case Take(account, today, requestId) =>
      TakeKeepsValid(db, account, today, requestId);
    case Load(customer, upload, today) =>
      LoadKeepsValid(db, customer, upload, today);
    case Insert(customer, caf) =>
      InsertKeepsValidExactly(db, customer, caf);
    case Retire(customer, id) =>
      RetireKeepsValid(db, customer, id);
    case Move(customer, environment) =>
      KeepsValidIfOwnedAlike(db, Step(db, event).0);
    case Mark(key, status) =>
      MarkKeepsValid(db, key, status);
  }

  /** What a run from `db` to `after` promises of one folio it delivered. */
  ghost predicate Honoured(db: Db, after: Db, t: Taken) {
    && t.key in after.assignments && t.key !in db.assignments
    && t.caf < |after.cafs| && Owns(after.cafs[t.caf], t.key)
    && t.key.account in after.pointers && t.key.folio <= after.pointers[t.key.account]
    && (t.key.account in db.pointers ==> db.pointers[t.key.account] < t.key.folio)
  }

  ghost predicate PointersGrow(db: Db, after: Db) {
    forall a <- db.pointers :: a in after.pointers && db.pointers[a] <= after.pointers[a]
  }

  /** The transaction changes nothing the run promised, and delivers at most one folio. */
  ghost predicate Advances(db: Db, after: Db, more: seq<Taken>) {
    && Sound(after) && CafsExtend(db.cafs, after.cafs) && PointersGrow(db, after)
    && |more| <= 1
    && (forall t <- more :: Honoured(db, after, t) && after.pointers[t.key.account] == t.key.folio)
    && after.assignments.Keys == db.assignments.Keys + (set t <- more :: t.key)
    && forall a <- after.pointers :: (exists t <- more :: t.key.account == a) || a !in db.pointers || after.pointers[a] == db.pointers[a]
  }

  lemma DeliveryAdvances(db: Db, after: Db, account: Account, d: Delivery, requestId: string)
    requires Sound(db) && account in db.pointers && NextIn(db, account, d)
    requires Delivered(db, after, account, d, requestId) && Sound(after)
    requires FolioKey(account, d.folio) !in db.assignments
    ensures Advances(db, after, [Taken(FolioKey(account, d.folio), d.caf)])
  {
    hide Sound;
    var t := Taken(FolioKey(account, d.folio), d.caf);
    assert SameCaf(db.cafs[d.caf], after.cafs[d.caf]);
    assert Honoured(db, after, t);
    assert t in [t];
    assert (set u <- [t] :: u.key) == {t.key};
  }

  lemma StepAdvances(db: Db, event: Event)
    requires Sound(db)
    ensures Advances(db, Step(db, event).0, Step(db, event).1)
  {
    hide NextFolio, Sound, CheckCaf;
    StepKeepsSound(db, event);
    match event
    case Take(account, today, requestId) =>
      TakeKeepsSound(db, account, today, requestId);
      var (after, r) := NextFolio(db, account, today, requestId);
      if r.Ok? {
        DeliveryAdvances(db, after, account, r.value, requestId);
      }
    case _ =>
  }

  ghost predicate StrictlyIncreasing(taken: seq<Taken>) {
    forall i, j :: 0 <= i < j < |taken| && taken[i].key.account == taken[j].key.account ==>
      taken[i].key.folio < taken[j].key.folio
  }

  ghost predicate History(db: Db, after: Db, taken: seq<Taken>) {
    && Sound(after) && CafsExtend(db.cafs, after.cafs) && PointersGrow(db, after)
    && (forall t <- taken :: Honoured(db, after, t))
    && StrictlyIncreasing(taken)
    && after.assignments.Keys == db.assignments.Keys + (set t <- taken :: t.key)
  }

  lemma CafsExtendTransitive(a: seq<CafRow>, b: seq<CafRow>, c: seq<CafRow>)
    requires CafsExtend(a, b) && CafsExtend(b, c)
    ensures CafsExtend(a, c)
  {
    forall i | 0 <= i < |a| ensures SameCaf(a[i], c[i]) {
      assert SameCaf(a[i], b[i]) && SameCaf(b[i], c[i]);
    }
  }

  lemma HonouredLater(db: Db, middle: Db, after: Db, more: seq<Taken>, t: Taken)
    ensures Honoured(db, middle, t) && Advances(middle, after, more) ==> Honoured(db, after, t)
  {
    if Honoured(db, middle, t) && Advances(middle, after, more) {
      assert SameCaf(middle.cafs[t.caf], after.cafs[t.caf]);
    }
  }

  lemma IncreasingExtends(db: Db, middle: Db, taken: seq<Taken>, after: Db, more: seq<Taken>)
    requires History(db, middle, taken) && Advances(middle, after, more)
    ensures StrictlyIncreasing(taken + more)
  {
    hide Sound, CafsExtend;
    var all := taken + more;
    forall i, j | 0 <= i < j < |all| && all[i].key.account == all[j].key.account
      ensures all[i].key.folio < all[j].key.folio
    {
      if j >= |taken| {
        assert all[i] in taken && all[j] in more;
        assert Honoured(db, middle, all[i]) && Honoured(middle, after, all[j]);
      }
    }
  }

  lemma HistoryExtends(db: Db, middle: Db, taken: seq<Taken>, after: Db, more: seq<Taken>)
    requires History(db, middle, taken) && Advances(middle, after, more)
    ensures History(db, after, taken + more)
  {
    hide Sound, CafsExtend, StrictlyIncreasing, Owns;
    CafsExtendTransitive(db.cafs, middle.cafs, after.cafs);
    IncreasingExtends(db, middle, taken, after, more);
    forall t | t in taken + more ensures Honoured(db, after, t) {
      if t in taken {
        HonouredLater(db, middle, after, more, t);
      }
    }
    assert (set t <- taken + more :: t.key) == (set t <- taken :: t.key) + (set t <- more :: t.key);
  }

  /** The allocator's promise over every run, however loads interleave: every folio delivered is new,
      above its account's starting pointer and inside the CAF it came from; per account folios
      strictly increase; and nothing else was ever delivered. */
  lemma {:induction false} EveryRunIsAHistory(db: Db, events: seq<Event>)
    requires Sound(db)
    ensures History(db, Run(db, events).0, Run(db, events).1)
  {
    if events != [] {
      var start := events[..|events| - 1];
      EveryRunIsAHistory(db, start);
      var (middle, taken) := Run(db, start);
      StepAdvances(middle, events[|events| - 1]);
      var (after, more) := Step(middle, events[|events| - 1]);
      HistoryExtends(db, middle, taken, after, more);
    }
  }

  /** No folio of a run is delivered twice; each lies in the CAF it came from, and in no other unless
      the ranges have come to meet. */
  lemma DeliveredFoliosAreUnique(db: Db, events: seq<Event>, i: nat, j: nat)
    requires Sound(db) && i < |Run(db, events).1| && j < |Run(db, events).1|
    ensures var (after, taken) := Run(db, events);
            && (taken[i].key == taken[j].key ==> i == j)
            && taken[i].caf < |after.cafs| && Owns(after.cafs[taken[i].caf], taken[i].key)
            && (Disjoint(after.cafs) ==>
                  forall c :: 0 <= c < |after.cafs| ==> (Owns(after.cafs[c], taken[i].key) <==> c == taken[i].caf))
  {
    EveryRunIsAHistory(db, events);
    var (after, taken) := Run(db, events);
    assert Honoured(db, after, taken[i]);
    if Disjoint(after.cafs) {
      forall c | 0 <= c < |after.cafs| && Owns(after.cafs[c], taken[i].key) ensures c == taken[i].caf {
        UniqueOwner(after.cafs, taken[i].key, c, taken[i].caf);
      }
    }
  }

  lemma ExtensionWasDisjoint(before: seq<CafRow>, after: seq<CafRow>)
    requires CafsExtend(before, after) && Disjoint(after)
    ensures Disjoint(before)
  {
    forall i, j | 0 <= i < j < |before| && before[i].account == before[j].account
      ensures before[i].folioTo < before[j].folioFrom || before[j].folioTo < before[i].folioFrom
    {
      assert SameCaf(before[i], after[i]) && SameCaf(before[j], after[j]);
    }
  }

  /** A run keeps the whole invariant exactly when it leaves no two ranges of an account that meet. */
  lemma {:induction false} EveryRunIsValidExactly(db: Db, events: seq<Event>)
    requires Valid(db)
    ensures Valid(Run(db, events).0) <==> Disjoint(Run(db, events).0.cafs)
  {
    if events != [] && Disjoint(Run(db, events).0.cafs) {
      var start, last := events[..|events| - 1], events[|events| - 1];
      var middle := Run(db, start).0;
      EveryRunIsAHistory(db, start);
      StepKeepsSound(middle, last);
      ExtensionWasDisjoint(middle.cafs, Step(middle, last).0.cafs);
      EveryRunIsValidExactly(db, start);
      hide Sound, Run, CafsExtend, PrefixConsumed;
      StepKeepsValidExactly(middle, last);
      if last.Insert? {
        InsertKeepsDisjointExactly(middle, last.customer, last.caf) by { ConsistentRows(middle); }
      }
    }
  }

  lemma ConsistentRows(db: Db)
    requires Sound(db)
    ensures forall i :: 0 <= i < |db.cafs| ==> RowConsistent(db.cafs[i])
  {
  }

  /** At any moment the pointer is 0 or names a folio of some CAF, and the folios of that CAF
      up to it are exactly the ones delivered. */
  lemma PointerStandsInItsCaf(db: Db, account: Account)
    requires Valid(db) && account in db.pointers
    ensures var last := db.pointers[account];
            || (last == 0 && forall f :: FolioKey(account, f) !in db.assignments)
            || exists i :: 0 <= i < |db.cafs| && Owns(db.cafs[i], FolioKey(account, last)) &&
                 forall f :: db.cafs[i].Contains(f) ==> (FolioKey(account, f) in db.assignments <==> f <= last)
  {
    var last := FolioKey(account, db.pointers[account]);
    if last.folio == 0 {
      assert forall k :: k in db.assignments && k.account == account ==> k.folio <= 0;
      assert forall i :: 0 <= i < |db.cafs| ==> RowConsistent(db.cafs[i]) && 1 <= db.cafs[i].folioFrom;
    } else {
      var i :| 0 <= i < |db.cafs| && Owns(db.cafs[i], last);
      forall f | db.cafs[i].Contains(f) ensures FolioKey(account, f) in db.assignments <==> f <= last.folio {
        if f <= last.folio {
          assert Precedes(db.cafs, i, FolioKey(account, f), last);
        }
      }
    }
  }

  // ---------------------------------------------------------------- reserved folios

  /** A folio can be stamped exactly while it is delivered and still has no outcome. */
  lemma ReservedExactly(db: Db, key: FolioKey)
    requires Sound(db)
    ensures match CafForReserved(db, key)
            case Ok(i) => key in db.assignments && db.assignments[key].status == Assigned && i < |db.cafs| && Owns(db.cafs[i], key)
            case Err(NotReserved) => key !in db.assignments
            case Err(HasOutcome(s)) => key in db.assignments && db.assignments[key].status == s && s != Assigned
            case Err(NoCafContains) => false
  {
  }

  ghost predicate NeverMarks(events: seq<Event>, key: FolioKey) {
    forall e <- events :: e.Mark? ==> e.key != key
  }

  lemma StepKeepsReservation(db: Db, event: Event, key: FolioKey)
    requires Sound(db) && key in db.assignments && (event.Mark? ==> event.key != key)
    ensures key in Step(db, event).0.assignments && Step(db, event).0.assignments[key] == db.assignments[key]
  {
    hide NextFolio, Sound, CheckCaf;
    match event
    case Take(account, today, requestId) =>
      TakeKeepsSound(db, account, today, requestId);
      var (after, r) := NextFolio(db, account, today, requestId);
      assert Step(db, event).0 == after;
      if r.Ok? { assert key in after.assignments; } else { assert after.assignments == db.assignments; }
    case _ =>
  }

  lemma {:induction false} RunKeepsReservation(db: Db, events: seq<Event>, key: FolioKey)
    requires Sound(db) && key in db.assignments && NeverMarks(events, key)
    ensures key in Run(db, events).0.assignments && Run(db, events).0.assignments[key] == db.assignments[key]
  {
    if events != [] {
      var start := events[..|events| - 1];
      RunKeepsReservation(db, start, key);
      EveryRunIsAHistory(db, start);
      StepKeepsReservation(Run(db, start).0, events[|events| - 1], key);
    }
  }

  lemma FirstOwner(cafs: seq<CafRow>, key: FolioKey, i: nat, n: nat)
    requires i < n <= |cafs| && Owns(cafs[i], key) && forall j :: 0 <= j < n && Owns(cafs[j], key) ==> j == i
    ensures OwnerFrom(cafs, key, 0) == Some(i)
  {
  }

  /** After a delivery from ranges that do not meet, whatever every other worker does and whatever is
      loaded later, the same CAF stamps the folio until the folio itself gets an outcome. */
  lemma ReservationRoundTrip(db: Db, account: Account, today: Date, requestId: string, later: seq<Event>)
    requires Sound(db) && Disjoint(db.cafs)
    ensures var (after, r) := NextFolio(db, account, today, requestId);
            var end := Run(after, later).0;
            r.Ok? && NeverMarks(later, FolioKey(account, r.value.folio)) ==>
              && CafForReserved(end, FolioKey(account, r.value.folio)) == Ok(r.value.caf)
              && r.value.caf < |db.cafs| && r.value.caf < |end.cafs| && end.cafs[r.value.caf].file == db.cafs[r.value.caf].file
  {
    var (after, r) := NextFolio(db, account, today, requestId);
    TakeKeepsSound(db, account, today, requestId);
    if r.Ok? && NeverMarks(later, FolioKey(account, r.value.folio)) {
      var d := r.value;
      var key := FolioKey(account, d.folio);
      RunKeepsReservation(after, later, key);
      EveryRunIsAHistory(after, later);
      var end := Run(after, later).0;
      CafsExtendTransitive(db.cafs, after.cafs, end.cafs);
      assert SameCaf(db.cafs[d.caf], end.cafs[d.caf]);
      forall j | 0 <= j < |db.cafs| && Owns(end.cafs[j], key) ensures j == d.caf {
        assert SameCaf(db.cafs[j], end.cafs[j]);
        UniqueOwner(db.cafs, key, j, d.caf);
      }
      hide Run, NextFolio, Sound;
      FirstOwner(end.cafs, key, d.caf, |db.cafs|);
    }
  }
}
