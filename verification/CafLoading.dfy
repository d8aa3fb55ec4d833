/**
 Operators loading CAFs at once. Each checks a range against the rows it sees and stores the CAF in
 a later commit, with nothing locked in between; any of them may give up, or be refused by the
 constraint on the pointer row, and the allocator and everyone else go on meanwhile.
 */
module CafLoading {
  import opened Wrappers
  import opened FolioStore
  import opened FolioHistory
  import opened FolioInventory

  /** A CAF that passed its check and is not stored yet, and how many rows there were to check. */
  datatype Checked = Checked(customer: int, caf: ParsedCaf, against: nat)

  datatype State = State(db: Db, checked: map<int, Checked>)

  datatype Action =
    | Check(operator: int, customer: int, upload: CafUpload, today: Date)
    | Store(operator: int)
    | Abandon(operator: int)
    | Other(event: Event)

  predicate IsLoad(event: Event) {
    event.Load? || event.Insert?
  }

  function Act(s: State, a: Action): State {
    match a
    case Check(o, customer, upload, today) =>
      var r := CheckCaf(s.db, customer, upload, today);
      if o in s.checked || r.Err? then s
      else s.(checked := s.checked[o := Checked(customer, r.value, |s.db.cafs|)])
    case Store(o) =>
      if o !in s.checked then s
      else State(InsertCaf(s.db, s.checked[o].customer, s.checked[o].caf), s.checked - {o})
    case Abandon(o) => s.(checked := s.checked - {o})
    case Other(event) => if IsLoad(event) then s else s.(db := Step(s.db, event).0)
  }

  function ActAll(s: State, actions: seq<Action>): State {
    if actions == [] then s else Act(ActAll(s, actions[..|actions| - 1]), actions[|actions| - 1])
  }

  /** The transactions the actions amount to. */
  function EventOf(s: State, a: Action): seq<Event> {
    if a.Store? && a.operator in s.checked then [Insert(s.checked[a.operator].customer, s.checked[a.operator].caf)]
    else if a.Other? && !IsLoad(a.event) then [a.event]
    else []
  }

  function EventsOf(s: State, actions: seq<Action>): seq<Event> {
    if actions == [] then []
    else EventsOf(s, actions[..|actions| - 1]) + EventOf(ActAll(s, actions[..|actions| - 1]), actions[|actions| - 1])
  }

  lemma OneMoreEvent(db: Db, events: seq<Event>, event: Event)
    ensures var (middle, taken) := Run(db, events);
            Run(db, events + [event]) == (Step(middle, event).0, taken + Step(middle, event).1)
  {
    assert (events + [event])[..|events|] == events;
    hide Step;
  }

  /** Alone, a check and what it stores are the loading of the CAF: stored if it can be, and only then. */
  lemma LoadAloneIsTheLoad(s: State, o: int, customer: int, upload: CafUpload, today: Date)
    requires o !in s.checked
    ensures var end := Act(Act(s, Check(o, customer, upload, today)), Store(o));
            end.db == AddCaf(s.db, customer, upload, today).0 && end.checked == s.checked
  {
    var r := CheckCaf(s.db, customer, upload, today);
    if r.Ok? {
      assert s.checked[o := Checked(customer, r.value, |s.db.cafs|)] - {o} == s.checked;
    }
    hide CheckCaf, InsertCaf;
  }

  /** One action is one transaction on the tables, or none. */
  lemma ActIsEvent(s: State, a: Action)
    ensures var events := EventOf(s, a);
            |events| <= 1 && Act(s, a).db == if events == [] then s.db else Step(s.db, events[0]).0
  {
    hide CheckCaf, InsertCaf, NextFolio, AddCaf, RetireCaf;
  }

  lemma {:induction false} ActionsAreARun(s: State, actions: seq<Action>)
    ensures ActAll(s, actions).db == Run(s.db, EventsOf(s, actions)).0
  {
    if actions != [] {
      var start := actions[..|actions| - 1];
      var middle, last := ActAll(s, start), actions[|actions| - 1];
      ActionsAreARun(s, start);
      ActIsEvent(middle, last);
      hide Act, Step, EventOf;
      var events := EventOf(middle, last);
      assert EventsOf(s, actions) == EventsOf(s, start) + events;
      if events == [] {
        assert EventsOf(s, start) + [] == EventsOf(s, start);
      } else {
        assert events == [events[0]];
        OneMoreEvent(s.db, EventsOf(s, start), events[0]);
      }
    }
  }

  /** However operators interleave with the allocator and with each other, folios delivered strictly
      increase per account, each is new and in the CAF it came from, and none is delivered twice. */
  lemma LoadingKeepsHistory(s: State, actions: seq<Action>)
    requires Sound(s.db)
    ensures var taken := Run(s.db, EventsOf(s, actions)).1;
            && History(s.db, ActAll(s, actions).db, taken)
            && forall i, j :: 0 <= i < |taken| && 0 <= j < |taken| && taken[i].key == taken[j].key ==> i == j
  {
    var events := EventsOf(s, actions);
    ActionsAreARun(s, actions);
    EveryRunIsAHistory(s.db, events);
    hide Sound, Run, History;
    forall i: nat, j: nat | i < |Run(s.db, events).1| && j < |Run(s.db, events).1| && Run(s.db, events).1[i].key == Run(s.db, events).1[j].key
      ensures i == j
    {
      DeliveredFoliosAreUnique(s.db, events, i, j);
    }
  }

  // ---------------------------------------------------------------- when ranges stay apart

  predicate Meets(row: CafRow, c: Checked) {
    RangesMeet(row, Account(c.customer, c.caf.docType), c.caf.folioFrom, c.caf.folioTo)
  }

  /** No row that was stored since the check meets the CAF about to be stored. */
  ghost predicate Clear(s: State, a: Action) {
    a.Store? && a.operator in s.checked ==>
      forall i :: s.checked[a.operator].against <= i < |s.db.cafs| ==> !Meets(s.db.cafs[i], s.checked[a.operator])
  }

  ghost predicate AllClear(s: State, actions: seq<Action>) {
    forall n :: 0 <= n < |actions| ==> Clear(ActAll(s, actions[..n]), actions[n])
  }

  /** The rows each operator checked do not meet its CAF. */
  ghost predicate CheckedOk(s: State) {
    forall o <- s.checked ::
      && s.checked[o].against <= |s.db.cafs|
      && forall i :: 0 <= i < s.checked[o].against ==> !Meets(s.db.cafs[i], s.checked[o])
  }

  lemma ExtensionMeetsTheSame(before: seq<CafRow>, after: seq<CafRow>, c: Checked)
    requires CafsExtend(before, after)
    ensures forall i :: 0 <= i < |before| ==> Meets(after[i], c) == Meets(before[i], c)
  {
    forall i | 0 <= i < |before| ensures Meets(after[i], c) == Meets(before[i], c) {
      assert SameCaf(before[i], after[i]);
    }
  }

  lemma ActExtends(s: State, a: Action)
    requires Sound(s.db)
    ensures Sound(Act(s, a).db) && CafsExtend(s.db.cafs, Act(s, a).db.cafs)
  {
    hide Sound, InsertCaf, Step, CheckCaf;
    match a
    case Store(o) =>
      if o in s.checked {
        InsertKeepsSound(s.db, s.checked[o].customer, s.checked[o].caf);
      }
    case Other(event) => StepKeepsSound(s.db, event);
    case _ =>
  }

  lemma ActKeepsCheckedOk(s: State, a: Action)
    requires Sound(s.db) && CheckedOk(s)
    ensures CheckedOk(Act(s, a))
  {
    ActExtends(s, a);
    var after := Act(s, a);
    hide Sound, InsertCaf, Step, CheckCaf, Meets, CafsExtend;
    forall o | o in after.checked
      ensures after.checked[o].against <= |after.db.cafs|
      ensures forall i :: 0 <= i < after.checked[o].against ==> !Meets(after.db.cafs[i], after.checked[o])
    {
      if o in s.checked && after.checked[o] == s.checked[o] {
        Longer(s.db.cafs, after.db.cafs);
        ExtensionMeetsTheSame(s.db.cafs, after.db.cafs, s.checked[o]);
      } else {
        CheckedMeetsNone(s.db, a.customer, a.upload, a.today);
        NoneMet(s.db.cafs, after.checked[o]);
      }
    }
  }

  lemma Longer(before: seq<CafRow>, after: seq<CafRow>)
    requires CafsExtend(before, after)
    ensures |before| <= |after|
  {
  }

  lemma NoneMet(cafs: seq<CafRow>, c: Checked)
    ensures MeetsNone(cafs, c.customer, c.caf) <==> forall i :: 0 <= i < |cafs| ==> !Meets(cafs[i], c)
  {
  }

  lemma StepStaysValidExactly(s: State, a: Action)
    requires Valid(s.db) && CheckedOk(s)
    ensures Valid(Act(s, a).db) <==> Clear(s, a)
  {
    hide Valid, InsertCaf, Step, CheckCaf, Meets, MeetsNone;
    match a
    case Store(o) =>
      if o in s.checked {
        InsertKeepsValidExactly(s.db, s.checked[o].customer, s.checked[o].caf);
        NoneMet(s.db.cafs, s.checked[o]);
      }
    case Other(event) =>
      if !IsLoad(event) {
        StepKeepsValidExactly(s.db, event);
      }
    case _ =>
  }

  lemma AllClearNext(s: State, actions: seq<Action>)
    requires actions != []
    ensures var start := actions[..|actions| - 1];
            AllClear(s, actions) <==> AllClear(s, start) && Clear(ActAll(s, start), actions[|actions| - 1])
  {
    hide Clear, Act, ActAll;
    var start := actions[..|actions| - 1];
    assert forall n :: 0 <= n < |start| ==> start[..n] == actions[..n] && start[n] == actions[n];
  }

  lemma {:induction false} ActAllKeepsCheckedOk(s: State, actions: seq<Action>)
    requires Sound(s.db) && CheckedOk(s)
    ensures Sound(ActAll(s, actions).db) && CheckedOk(ActAll(s, actions))
  {
    hide Act, Sound, CheckedOk;
    if actions != [] {
      var start := actions[..|actions| - 1];
      ActAllKeepsCheckedOk(s, start);
      ActExtends(ActAll(s, start), actions[|actions| - 1]);
      ActKeepsCheckedOk(ActAll(s, start), actions[|actions| - 1]);
    }
  }

  lemma DisjointIsValid(s: State, actions: seq<Action>)
    requires Valid(s.db)
    ensures Valid(ActAll(s, actions).db) <==> Disjoint(ActAll(s, actions).db.cafs)
  {
    ActionsAreARun(s, actions);
    EveryRunIsValidExactly(s.db, EventsOf(s, actions));
    hide Valid, Run, ActAll;
  }

  /** Over every interleaving no two ranges of an account ever meet, and with that the whole invariant
      holds, exactly when no CAF was stored whose range meets one stored since its check. */
  lemma {:induction false} RangesStayApartExactly(s: State, actions: seq<Action>)
    requires Valid(s.db) && CheckedOk(s)
    ensures Valid(ActAll(s, actions).db) <==> AllClear(s, actions)
    ensures Disjoint(ActAll(s, actions).db.cafs) <==> AllClear(s, actions)
  {
    if actions != [] {
      var start, last := actions[..|actions| - 1], actions[|actions| - 1];
      var middle := ActAll(s, start);
      RangesStayApartExactly(s, start);
      ActAllKeepsCheckedOk(s, start);
      AllClearNext(s, actions);
      DisjointIsValid(s, actions);
      hide Valid, Act, AllClear, Clear, CheckedOk, Disjoint, CafsExtend;
      ActExtends(middle, last) by { SoundOfRun(s, start); }
      if Valid(middle.db) {
        StepStaysValidExactly(middle, last);
      } else if Disjoint(ActAll(s, actions).db.cafs) {
        ExtensionWasDisjoint(middle.db.cafs, Act(middle, last).db.cafs);
      }
    }
  }

  lemma SoundOfRun(s: State, actions: seq<Action>)
    requires Valid(s.db)
    ensures Sound(ActAll(s, actions).db)
  {
    hide Sound, History;
    LoadingKeepsHistory(s, actions);
    HistoryIsSound(s.db, ActAll(s, actions).db, Run(s.db, EventsOf(s, actions)).1);
  }

  lemma HistoryIsSound(db: Db, after: Db, taken: seq<Taken>)
    requires History(db, after, taken)
    ensures Sound(after)
  {
  }

  // ---------------------------------------------------------------- one CAF posted twice at once

  function PostTwice(v: int, w: int, customer: int, upload: CafUpload, today: Date): seq<Action> {
    [Check(v, customer, upload, today), Check(w, customer, upload, today), Store(v), Store(w)]
  }

  lemma RunOfFour(s: State, a: Action, b: Action, c: Action, d: Action)
    ensures ActAll(s, [a, b, c, d]) == Act(Act(Act(Act(s, a), b), c), d)
  {
    hide Act;
    assert [a, b, c, d][..3] == [a, b, c] && [a, b, c][..2] == [a, b] && [a, b][..1] == [a] && [a][..0] == [];
    assert ActAll(s, [a]) == Act(s, a);
    assert ActAll(s, [a, b]) == Act(Act(s, a), b);
    assert ActAll(s, [a, b, c]) == Act(Act(Act(s, a), b), c);
  }

  /** Any CAF that would be loaded, for an account that has its pointer, is stored twice when it is
      posted twice at once. */
  lemma PostedTwiceIsStoredTwice(s: State, v: int, w: int, customer: int, upload: CafUpload, today: Date)
    requires v != w && v !in s.checked && w !in s.checked && CheckCaf(s.db, customer, upload, today).Ok?
    requires upload.Readable? && Account(customer, upload.caf.docType) in s.db.pointers
    ensures var row := RowOf(Account(customer, upload.caf.docType), upload.caf);
            var actions := PostTwice(v, w, customer, upload, today);
            && ActAll(s, actions).db.cafs == s.db.cafs + [row, row]
            && ActAll(s, actions).db == InsertCaf(InsertCaf(s.db, customer, upload.caf), customer, upload.caf)
            && !AllClear(s, actions) && !Disjoint(ActAll(s, actions).db.cafs)
  {
    CheckedMeetsNone(s.db, customer, upload, today);
    var actions := PostTwice(v, w, customer, upload, today);
    var caf: ParsedCaf := CheckCaf(s.db, customer, upload, today).value;
    RunOfFour(s, actions[0], actions[1], actions[2], actions[3]);
    hide CheckCaf;
    var s2 := Act(Act(s, actions[0]), actions[1]);
    assert s2 == State(s.db, s.checked[v := Checked(customer, caf, |s.db.cafs|)][w := Checked(customer, caf, |s.db.cafs|)]);
    var s3 := Act(s2, actions[2]);
    InsertExtends(s.db, customer, caf);
    InsertExtends(s3.db, customer, caf);
    hide InsertCaf;
    var cafs := ActAll(s, actions).db.cafs;
    var row := RowOf(Account(customer, caf.docType), caf);
    assert cafs == s.db.cafs + [row] + [row];
    assert cafs[|s.db.cafs|] == row == cafs[|s.db.cafs| + 1];
    assert actions[..3] == [actions[0], actions[1], actions[2]];
    assert ActAll(s, actions[..3]) == s3 by { RunOfThree(s, actions[0], actions[1], actions[2]); }
    assert Meets(s3.db.cafs[|s.db.cafs|], s3.checked[w]);
    assert !Clear(s3, actions[3]);
  }

  lemma RunOfThree(s: State, a: Action, b: Action, c: Action)
    ensures ActAll(s, [a, b, c]) == Act(Act(Act(s, a), b), c)
  {
    hide Act;
    assert [a, b, c][..2] == [a, b] && [a, b][..1] == [a] && [a][..0] == [];
    assert ActAll(s, [a]) == Act(s, a);
    assert ActAll(s, [a, b]) == Act(Act(s, a), b);
  }

  /** Nothing is left in the account: none of its ranges ends past the pointer. */
  ghost predicate NothingLeft(db: Db, account: Account) {
    forall i :: 0 <= i < |db.cafs| && db.cafs[i].account == account ==> db.cafs[i].folioTo <= LastFolio(db, account)
  }

  /** The folios of the CAF past the pointer. */
  function Fresh(db: Db, account: Account, caf: ParsedCaf): int {
    Max(0, caf.folioTo - Max(LastFolio(db, account), caf.folioFrom - 1))
  }

  lemma {:induction false} SumOfNothing(f: nat -> int, n: nat)
    requires forall i: nat :: i < n ==> f(i) == 0
    ensures SumTo(f, n) == 0
  {
    if n > 0 {
      SumOfNothing(f, n - 1);
    }
  }

  lemma NothingUsable(db: Db, row: CafRow, today: Date)
    requires row.folioTo <= LastFolio(db, row.account)
    ensures Usable(db, row, today) == 0
  {
    hide ReportState;
  }

  lemma NewRowUsable(db: Db, customer: int, upload: CafUpload, today: Date, after: Db)
    requires CheckCaf(db, customer, upload, today).Ok? && upload.Readable?
    requires after.environments == db.environments
    ensures var account := Account(customer, upload.caf.docType);
            var row := RowOf(account, upload.caf);
            && row.file.WellFormed()
            && (Unused(after, row) != 0 || Remaining(after, row) == 0 ==> Usable(after, row, today) == Remaining(after, row))
  {
    hide Unused, FirstOverlap;
  }

  lemma UsedNotPastPointer(db: Db, row: CafRow)
    requires AssignmentsOwned(db) && row.file.WellFormed() && row.folioFrom <= row.folioTo && row.account in db.pointers
    ensures Remaining(db, row) > 0 ==> Unused(db, row) > 0
  {
    if Remaining(db, row) > 0 {
      UsedAtMost(db, row, Max(LastFolio(db, row.account), row.folioFrom - 1));
    }
  }

  /** When all rows but the last two are used up, what those two add is the forecast. */
  lemma SumOfLastTwo(db: Db, account: Account, row: CafRow, n: nat, today: Date)
    requires |db.cafs| == n + 2 && db.cafs[n] == db.cafs[n + 1] == row && row.account == account
    requires forall i :: 0 <= i < n && db.cafs[i].account == account ==> db.cafs[i].folioTo <= LastFolio(db, account)
    ensures UsableRemaining(db, account, today) == 2 * Usable(db, row, today)
  {
    hide Usable, LastFolio;
    var f := OfAccount(db, account, r => Usable(db, r, today));
    forall i: nat | i < n ensures f(i) == 0 {
      if db.cafs[i].account == account {
        NothingUsable(db, db.cafs[i], today);
      }
    }
    SumOfNothing(f, n);
    assert f(n) == f(n + 1) == Usable(db, row, today);
    assert SumTo(f, n + 1) == SumTo(f, n) + f(n) && SumTo(f, n + 2) == SumTo(f, n + 1) + f(n + 1);
  }

  /** Posted twice, the report forecasts each folio of the CAF twice. */
  lemma ForecastCountsTwice(db: Db, customer: int, upload: CafUpload, today: Date)
    requires Sound(db) && CheckCaf(db, customer, upload, today).Ok? && upload.Readable?
    requires NothingLeft(db, Account(customer, upload.caf.docType))
    ensures var account := Account(customer, upload.caf.docType);
            var caf: ParsedCaf := CheckCaf(db, customer, upload, today).value;
            UsableRemaining(InsertCaf(InsertCaf(db, customer, caf), customer, caf), account, today) == 2 * Fresh(db, account, caf)
  {
    var account := Account(customer, upload.caf.docType);
    CheckedMeetsNone(db, customer, upload, today);
    var caf: ParsedCaf := CheckCaf(db, customer, upload, today).value;
    var row := RowOf(account, caf);
    var once := InsertCaf(db, customer, caf);
    var twice := InsertCaf(once, customer, caf);
    InsertExtends(db, customer, caf);
    InsertExtends(once, customer, caf);
    InsertKeepsSound(db, customer, caf);
    InsertKeepsSound(once, customer, caf);
    NewRowUsable(db, customer, upload, today, twice);
    assert AssignmentsOwned(twice) && row.account in twice.pointers;
    hide Sound, InsertCaf, CheckCaf, Usable, Unused, AssignmentsOwned, UsableRemaining, CafsExtend;
    UsedNotPastPointer(twice, row);
    assert LastFolio(twice, account) == LastFolio(db, account);
    hide LastFolio;
    var n := |db.cafs|;
    assert twice.cafs == db.cafs + [row] + [row];
    assert forall i :: 0 <= i < n ==> twice.cafs[i] == db.cafs[i];
    SumOfLastTwo(twice, account, row, n, today);
  }

  lemma {:induction false} IncreasingFits(taken: seq<Taken>, account: Account, low: int, high: int)
    requires StrictlyIncreasing(taken)
    requires forall i :: 0 <= i < |taken| ==> taken[i].key.account == account && low <= taken[i].key.folio <= high
    ensures |taken| <= Max(0, high - low + 1)
  {
    if taken != [] {
      var start, last := taken[..|taken| - 1], taken[|taken| - 1];
      IncreasingFits(start, account, low, last.key.folio - 1);
    }
  }

  lemma TakeAddsNoRow(db: Db, account: Account, today: Date, requestId: string)
    requires Sound(db)
    ensures var (after, taken) := Step(db, Take(account, today, requestId));
            |after.cafs| == |db.cafs| && Sound(after) && forall t <- taken :: t.key.account == account
  {
    TakeKeepsSound(db, account, today, requestId);
    hide NextFolio, Sound;
  }

  ghost predicate AllOf(taken: seq<Taken>, account: Account) {
    forall t <- taken :: t.key.account == account
  }

  lemma {:induction false} TakesAddNoRows(db: Db, account: Account, today: Date, requestId: string, n: nat)
    requires Sound(db)
    ensures var (after, taken) := Run(db, Takes(account, today, requestId, n));
            |after.cafs| == |db.cafs| && Sound(after) && AllOf(taken, account)
  {
    if n > 0 {
      var events, last := Takes(account, today, requestId, n - 1), Take(account, today, requestId);
      TakesAddNoRows(db, account, today, requestId, n - 1);
      assert Takes(account, today, requestId, n) == events + [last];
      OneMoreEvent(db, events, last);
      hide Run, Step, Sound;
      TakeAddsNoRow(Run(db, events).0, account, today, requestId);
    }
  }

  /** A folio delivered from tables in which only one range ends past the pointer lies in that range. */
  lemma DeliveredFromTheRow(twice: Db, after: Db, account: Account, row: CafRow, n: nat, t: Taken)
    requires n <= |twice.cafs| == |after.cafs| && CafsExtend(twice.cafs, after.cafs) && row.account == account
    requires forall i :: n <= i < |twice.cafs| ==> twice.cafs[i] == row
    requires forall i :: 0 <= i < n && twice.cafs[i].account == account ==> twice.cafs[i].folioTo <= LastFolio(twice, account)
    requires account in twice.pointers && t.key.account == account && Honoured(twice, after, t)
    ensures Max(LastFolio(twice, account) + 1, row.folioFrom) <= t.key.folio <= row.folioTo
  {
    assert SameCaf(twice.cafs[t.caf], after.cafs[t.caf]);
  }

  /** Allocations from such tables deliver each of its folios past the pointer at most once. */
  lemma TakesFit(twice: Db, account: Account, row: CafRow, k: nat, today: Date, requestId: string, n: nat)
    requires Sound(twice) && k <= |twice.cafs| && row.account == account && account in twice.pointers
    requires forall i :: k <= i < |twice.cafs| ==> twice.cafs[i] == row
    requires forall i :: 0 <= i < k && twice.cafs[i].account == account ==> twice.cafs[i].folioTo <= LastFolio(twice, account)
    ensures |Run(twice, Takes(account, today, requestId, n)).1| <=
            Max(0, row.folioTo - Max(LastFolio(twice, account), row.folioFrom - 1))
  {
    hide Sound, Run, Honoured, CafsExtend, PointersGrow, LastFolio;
    var events := Takes(account, today, requestId, n);
    EveryRunIsAHistory(twice, events);
    TakesAddNoRows(twice, account, today, requestId, n);
    var (after, taken) := Run(twice, events);
    forall i: nat | i < |taken|
      ensures taken[i].key.account == account
      ensures Max(LastFolio(twice, account) + 1, row.folioFrom) <= taken[i].key.folio <= row.folioTo
    {
      assert taken[i] in taken;
      DeliveredFromTheRow(twice, after, account, row, k, taken[i]);
    }
    IncreasingFits(taken, account, Max(LastFolio(twice, account) + 1, row.folioFrom), row.folioTo);
  }

  /** The allocator delivers each of them once. */
  lemma AllocatorDeliversOnce(db: Db, customer: int, caf: ParsedCaf, today: Date, requestId: string, n: nat)
    requires Sound(db) && NothingLeft(db, Account(customer, caf.docType))
    ensures var account := Account(customer, caf.docType);
            var twice := InsertCaf(InsertCaf(db, customer, caf), customer, caf);
            |Run(twice, Takes(account, today, requestId, n)).1| <= Fresh(db, account, caf)
  {
    var account, row := Account(customer, caf.docType), RowOf(Account(customer, caf.docType), caf);
    var once := InsertCaf(db, customer, caf);
    var twice := InsertCaf(once, customer, caf);
    InsertExtends(db, customer, caf);
    InsertExtends(once, customer, caf);
    InsertKeepsSound(db, customer, caf);
    InsertKeepsSound(once, customer, caf);
    assert twice.cafs == db.cafs + [row] + [row] && LastFolio(twice, account) == LastFolio(db, account);
    assert forall i :: 0 <= i < |db.cafs| ==> twice.cafs[i] == db.cafs[i];
    hide InsertCaf, Sound, Run, LastFolio, CafsExtend;
    TakesFit(twice, account, row, |db.cafs|, today, requestId, n);
  }

  /** So a CAF posted twice at once breaks the forecast whenever it brings folios past the pointer. */
  lemma PostedTwiceMisleads(db: Db, customer: int, upload: CafUpload, today: Date, requestId: string, n: nat)
    requires Sound(db) && CheckCaf(db, customer, upload, today).Ok? && upload.Readable?
    requires NothingLeft(db, Account(customer, upload.caf.docType)) && upload.caf.folioTo > LastFolio(db, Account(customer, upload.caf.docType))
    ensures var account := Account(customer, upload.caf.docType);
            var caf: ParsedCaf := CheckCaf(db, customer, upload, today).value;
            var twice := InsertCaf(InsertCaf(db, customer, caf), customer, caf);
            UsableRemaining(twice, account, today) > |Run(twice, Takes(account, today, requestId, n)).1|
  {
    CheckedMeetsNone(db, customer, upload, today);
    ForecastCountsTwice(db, customer, upload, today);
    AllocatorDeliversOnce(db, customer, CheckCaf(db, customer, upload, today).value, today, requestId, n);
    hide InsertCaf, CheckCaf, Run, Sound, UsableRemaining;
  }

  /** And every folio delivered from it lies in two CAFs, so the counts no longer add up. */
  lemma PostedTwiceIsNotConserved(db: Db, account: Account, i: int, j: int, key: FolioKey)
    requires Sound(db) && 0 <= i < j < |db.cafs| && key in db.assignments
    requires Owns(db.cafs[i], key) && Owns(db.cafs[j], key) && key.account == account
    ensures SumTo(OfAccount(db, account, row => Size(row)), |db.cafs|) !=
            CountStatus(db, account, Issued) + CountStatus(db, account, Failed)
            + CountStatus(db, account, Unknown) + CountStatus(db, account, Assigned)
            + SumTo(OfAccount(db, account, row => Unused(db, row)), |db.cafs|)
  {
    FoliosAreConservedExactly(db, account);
    assert key in KeysOf(db, account);
    assert !OwnedOnce(db, account, |db.cafs|);
    hide Sound, OwnedOnce, CountStatus, SumTo, OfAccount;
  }
}
