/**
 The allocator as the service runs it: queries, loops and row updates, each method tied to the
 transaction of `FolioStore` it carries out.
 */
module FolioService {
  import opened Wrappers
  import opened Sets
  import opened FolioStore
  import H = FolioHistory
  import opened FolioInventory

  lemma BackfillOneMore(rows: seq<CafRow>, visited: seq<nat>, i: nat)
    requires i < |rows|
    ensures var done := BackfillRows(rows, visited);
            done[i := Backfilled(done[i])] == BackfillRows(rows, visited + [i])
  {
  }

  lemma BackfillKeepsFile(rows: seq<CafRow>, visited: seq<nat>, i: nat)
    requires i < |rows|
    ensures var row := BackfillRows(rows, visited)[i];
            && Backfilled(row).file == rows[i].file
            && row.folioFrom == rows[i].folioFrom && row.folioTo == rows[i].folioTo
  {
  }

  lemma SumOverNone(f: nat -> int, order: seq<nat>)
    ensures SumOver(f, order[..0]) == 0
  {
  }

  lemma SumOverNext(f: nat -> int, order: seq<nat>, m: nat)
    requires m < |order|
    ensures SumOver(f, order[..m + 1]) == SumOver(f, order[..m]) + f(order[m])
  {
    assert order[..m + 1][..m] == order[..m];
  }

  /** The document types the report has something to say about. */
  function TypesOf(db: Db, customer: int): set<int> {
    (set row <- db.cafs | row.account.customer == customer :: row.account.docType)
    + (set a <- db.pointers | a.customer == customer :: a.docType)
  }

  lemma TypesExactly(db: Db, customer: int, t: int)
    ensures t in TypesOf(db, customer) <==>
            (exists i :: 0 <= i < |db.cafs| && db.cafs[i].account == Account(customer, t)) || Account(customer, t) in db.pointers
  {
    if i :| 0 <= i < |db.cafs| && db.cafs[i].account == Account(customer, t) {
      assert db.cafs[i] in db.cafs;
    }
  }

  class FolioTables {
    var environments: map<int, Environment>
    var cafs: seq<CafRow>
    var pointers: map<Account, int>
    var assignments: map<FolioKey, Assignment>

    function Contents(): Db
      reads this
    {
      Db(environments, cafs, pointers, assignments)
    }

    constructor ()
      ensures Contents() == EMPTY && H.Valid(Contents())
    {
      environments, cafs, pointers, assignments := map[], [], map[], map[];
    }

    method EnsurePointer(account: Account)
      modifies this
      ensures Contents() == FolioStore.EnsurePointer(old(Contents()), account)
    {
      if account !in pointers {
        pointers := pointers[account := 0];
      }
    }

    /** Walks the candidates, completing each row it reads, until one is usable. */
    method Scan(candidates: seq<nat>, certification: bool, today: Date) returns (k: nat)
      requires Indexes(candidates, cafs)
      modifies this`cafs
      ensures k == FirstUsable(old(cafs), candidates, certification, today)
      ensures cafs == BackfillRows(old(cafs), if k < |candidates| then candidates[..k + 1] else candidates)
    {
      hide BackfillRows, Backfilled, Refused;
      k := 0;
      ghost var rows := cafs;
      while k < |candidates|
        invariant k <= |candidates| && |cafs| == |rows|
        invariant FirstUsable(rows, candidates, certification, today) == k + FirstUsable(rows, candidates[k..], certification, today)
        invariant cafs == BackfillRows(rows, candidates[..k])
      {
        var i := candidates[k];
        assert candidates[..k + 1] == candidates[..k] + [i];
        assert candidates[k..][0] == i && candidates[k..][1..] == candidates[k + 1..];
        BackfillOneMore(rows, candidates[..k], i);
        assert Backfilled(cafs[i]).file == rows[i].file by { BackfillKeepsFile(rows, candidates[..k], i); }
        cafs := cafs[i := Backfilled(cafs[i])];
        if !Refused(cafs[i].file, certification, today) {
          return;
        }
        k := k + 1;
      }
      assert candidates[..k] == candidates;
    }

    /** Moves the pointer, marks a finished CAF and records who took the folio: one commit. */
    method Commit(account: Account, i: nat, folio: int, requestId: string)
      requires i < |cafs|
      modifies this
      ensures Contents() == Deliver(old(Contents()), account, i, folio, requestId)
    {
      pointers := pointers[account := folio];
      if folio >= cafs[i].folioTo {
        cafs := cafs[i := cafs[i].(exhausted := true)];
      }
      assignments := assignments[FolioKey(account, folio) := Assignment(requestId, Assigned)];
    }

    /** Under the lock of the pointer row: finds the CAF and delivers its next folio. */
    method NextFolio(account: Account, today: Date, requestId: string) returns (r: Result<Delivery, AllocationError>)
      modifies this
      ensures (Contents(), r) == FolioStore.NextFolio(old(Contents()), account, today, requestId)
    {
      hide Candidates, FirstUsable, BackfillRows, Refused, Deliver;
      if account !in pointers {
        return Err(NoPointer);
      }
      var certification := account.customer in environments && environments[account.customer] == Certification;
      var last := pointers[account];
      var candidates := Candidates(cafs, account, last + 1, |cafs|);
      var k := Scan(candidates, certification, today);
      if k == |candidates| {
        return Err(if candidates == [] then NoFoliosLeft(last) else NothingUsable(candidates));
      }
      var i := candidates[k];
      BackfillKeepsFile(old(cafs), candidates[..k + 1], i);
      hide Backfilled;
      var folio := Max(last + 1, cafs[i].folioFrom);
      Commit(account, i, folio, requestId);
      return Ok(Delivery(folio, i));
    }

    method CafForReserved(key: FolioKey) returns (r: Result<nat, ReservationError>)
      ensures r == FolioStore.CafForReserved(Contents(), key)
    {
      if key !in assignments {
        return Err(NotReserved);
      }
      if assignments[key].status != Assigned {
        return Err(HasOutcome(assignments[key].status));
      }
      var owner := OwnerFrom(cafs, key, 0);
      return if owner.None? then Err(NoCafContains) else Ok(owner.value);
    }

    method MarkAssignment(key: FolioKey, status: Status)
      modifies this
      ensures Contents() == FolioStore.MarkAssignment(old(Contents()), key, status)
    {
      if key in assignments {
        assignments := assignments[key := assignments[key].(status := status)];
      }
    }

    /** What is checked of an upload, range included; nothing is locked. */
    method CheckCaf(customer: int, upload: CafUpload, today: Date) returns (r: Result<ParsedCaf, CafError>)
      ensures r == FolioStore.CheckCaf(Contents(), customer, upload, today)
    {
      if upload.Unreadable? || !upload.caf.WellFormed() {
        return Err(NotACaf);
      }
      if !upload.sameRut {
        return Err(OtherRut);
      }
      var problem := CafProblem(Contents(), customer, upload, today);
      if problem.Some? {
        return Err(problem.value);
      }
      var overlap := FirstOverlap(cafs, Account(customer, upload.caf.docType), upload.caf.folioFrom, upload.caf.folioTo, 0);
      if overlap.Some? {
        return Err(Overlaps(overlap.value));
      }
      return Ok(upload.caf);
    }

    /** The row and its pointer: one commit. */
    method InsertCaf(customer: int, caf: ParsedCaf)
      modifies this
      ensures Contents() == FolioStore.InsertCaf(old(Contents()), customer, caf)
    {
      var account := Account(customer, caf.docType);
      cafs := cafs + [RowOf(account, caf)];
      EnsurePointer(account);
    }

    method AddCaf(customer: int, upload: CafUpload, today: Date) returns (r: Result<nat, CafError>)
      modifies this
      ensures (Contents(), r) == FolioStore.AddCaf(old(Contents()), customer, upload, today)
    {
      var checked := CheckCaf(customer, upload, today);
      if checked.Err? {
        return Err(checked.error);
      }
      r := Ok(|cafs|);
      InsertCaf(customer, checked.value);
    }

    method RetireCaf(customer: int, id: int) returns (r: Result<nat, CafError>)
      modifies this
      ensures (Contents(), r) == FolioStore.RetireCaf(old(Contents()), customer, id)
    {
      if !(0 <= id < |cafs|) || cafs[id].account.customer != customer {
        return Err(NotYourCaf);
      }
      if cafs[id].exhausted {
        return Err(AlreadyRetired);
      }
      cafs := cafs[id := cafs[id].(exhausted := true)];
      return Ok(id);
    }

    /** One document type of the inventory: its CAFs in order, adding up what is usable. */
    method ReportType(account: Account, today: Date) returns (report: TypeReport)
      ensures report == ReportOf(Contents(), account, today)
    {
      hide AccountRows, SumTo, SumOver, Used, CountStatus, StateOf, LastFolio;
      var db := Contents();
      var last := LastFolio(db, account);
      var certification := db.InCertification(account.customer);
      var order := AccountRows(cafs, account, |cafs|);
      var usable := 0;
      var rows: seq<ReportRow> := [];
      ghost var f := OfAccount(db, account, row => Usable(db, row, today));
      SumOverNone(f, order);
      AccountRowsAreOfAccount(cafs, account, |cafs|);
      for m := 0 to |order|
        invariant usable == SumOver(f, order[..m])
        invariant |rows| == m && forall j :: 0 <= j < m ==> rows[j] == RowReport(db, order[j], today)
      {
        var row := cafs[order[m]];
        assert order[m] in order && row.account == account;
        SumOverNext(f, order, m);
        var unused := row.folioTo - row.folioFrom + 1 - Used(db, row);
        var state := StateOf(row, last, certification, today, unused);
        var remaining := Max(0, row.folioTo - Max(last, row.folioFrom - 1));
        if state == InUse || state == Pending {
          usable := usable + remaining;
        }
        rows := rows + [ReportRow(order[m], state, remaining, unused)];
      }
      assert order[..|order|] == order;
      SumOverAccount(db, account, row => Usable(db, row, today), |cafs|);
      report := TypeReport(account.docType, last, usable,
                           CountStatus(db, account, Issued), CountStatus(db, account, Failed),
                           CountStatus(db, account, Unknown), CountStatus(db, account, Assigned), rows);
    }

    /** The whole inventory of a customer: one entry per type with a CAF or a pointer, by type. */
    method Report(customer: int, today: Date) returns (report: seq<TypeReport>)
      ensures Ascending(DocTypes(report))
      ensures forall t :: t in DocTypes(report) <==>
                (exists i :: 0 <= i < |cafs| && cafs[i].account == Account(customer, t)) || Account(customer, t) in pointers
      ensures forall entry <- report :: entry == ReportOf(Contents(), Account(customer, entry.docType), today)
    {
      var order := Sorted(TypesOf(Contents(), customer));
      forall t ensures t in order <==>
          (exists i :: 0 <= i < |cafs| && cafs[i].account == Account(customer, t)) || Account(customer, t) in pointers
      {
        TypesExactly(Contents(), customer, t);
      }
      report := [];
      for m := 0 to |order|
        invariant DocTypes(report) == order[..m]
        invariant forall entry <- report :: entry == ReportOf(Contents(), Account(customer, entry.docType), today)
      {
        var entry := ReportType(Account(customer, order[m]), today);
        report := report + [entry];
      }
      assert order[..|order|] == order;
    }
  }

  function DocTypes(report: seq<TypeReport>): seq<int> {
    seq(|report|, i requires 0 <= i < |report| => report[i].docType)
  }

  predicate Ascending(order: seq<int>) {
    forall i, j :: 0 <= i < j < |order| ==> order[i] < order[j]
  }

  method Sorted(types: set<int>) returns (order: seq<int>)
    ensures Ascending(order)
    ensures forall t :: t in order <==> t in types
  {
    var left := types;
    order := [];
    while left != {}
      invariant left <= types && forall t :: t in types <==> t in order || t in left
      invariant Ascending(order)
      invariant forall i, u :: 0 <= i < |order| && u in left ==> order[i] < u
      decreases left
    {
      SmallestExists(left);
      var t :| t in left && forall u <- left :: t <= u;
      order := order + [t];
      left := left - {t};
    }
  }
}
