# Folios, emission, envelopes and test sets of the DTE service, verified

This project models, in Dafny 4.11, the parts of the DTE service in which a mistake costs a legal document number, emits
a document twice, or misjudges what was emitted, and proves what each of them promises. `dafny verify dfyconfig.toml`
checks all of it.

| files | what they model |
|---|---|
| `FolioStore`, `FolioHistory`, `FolioInventory`, `FolioAnswers`, `FolioService`, `CafLoading` | the folio allocator: CAF ranges, one pointer per (customer, document type), the rows of delivered folios, the inventory report, what each operation answers; the tables as a class whose methods carry out the transactions; operators loading CAFs at once |
| `EmissionEndings`, `Emission`, `EmissionWorkers` | how emitting one document or a batch over the allocator can end, the methods that do it, and any number of workers doing so in any interleaving, any of them dying |
| `EmissionRecords`, `Idempotency`, `IdempotencyProtocol`, `EmissionEndToEnd`, `EmissionCalls`, `EmissionAlone` | the idempotency markers and the write-once archive of emitted documents, alone, under concurrency and crashes, and together with the allocator and the endings of emissions; what a worker and a call come to when nothing interrupts them |
| `RateLimit`, `RateLimitAnswers`, `RateLimitHistory`, `RateLimitRuns` | the sliding-window limiter, call by call and against a limiter that forgets nothing, also when times are registered out of order |
| `EnvelopeTree`, `EnvelopeMeaning`, `EnvelopeRenaming`, `EnvelopePruning`, `EnvelopeCompare`, `EnvelopeWalk` | flattening an envelope, naming its folios by order of appearance, leaving out what changes at every emission, comparing two emissions |
| `SheetReader`, `SheetLaws`, `SheetAnswers`, `SheetService` | reading the tax authority's sheet of test cases: numbering, references, inheritance of lines, and the error of a sheet that is refused |
| `SetFill`, `SetReceivers`, `SetFillLaws`, `SetFillAnswers`, `SetFillService` | storing a set definition without system data, completing it when it is issued, handing out receivers in one pass |
| `Reconcile`, `ReconcileReport`, `ReconcileAnswers` | crossing the authority's register with the customer's own |
| `BookLine` | converting a book line to pesos |
| `Totp`, `TotpProtocol` | the second factor: one-use codes, alone and with requests in flight |

How the model is built. Each component has a specification on values: functions that say what one transaction, one loop or
one walk leaves. The code that updates rows, dictionaries and lists in place appears as classes, arrays and loops, each
method tied to its function; what the service promises is proved about the functions, over whole runs. A transaction that
locks its row and commits once is one atomic step; everything between two commits can be interleaved with other workers.
Whatever comes from outside (dates, clocks, parsed files, uploads, drawn secrets, the normalisation of RUTs and names) is a
parameter, so every theorem holds for all of its values.

Where the code is weaker than its comments, the model follows the code, and says exactly when the promise holds:

- The lookup of a reserved folio (`app/services/folio_service.py:114-147`) neither locks nor claims it. No folio is ever in
  two hands exactly when no reserved folio is used by two emissions at once
  (`EmissionWorkers.EveryInterleavingSettlesExactly`); whenever one is, an outcome can be overwritten
  (`EmissionWorkers.SharedReservationOverwrites`).
- The idempotent emission frees the key on any data error, also one raised after the upload
  (`app/services/idempotency.py:123-141`). A step leaves a second upload impossible exactly when it is not such an error
  under a key (`IdempotencyProtocol.UploadsOnceExactly`). An emission ends in one exactly when its envelope was built and
  sent and the upload itself failed with an error in the data (`EmissionCalls.IssueIsEarlyExactly`,
  `EmissionCalls.BatchIsEarlyExactly`).
- Bad data should burn no folio, but in a batch a wrong reference is found after its folios were taken
  (`app/services/dte_service.py:260-262` against 288). A batch with bad data burns folios exactly when its documents are
  acceptable one by one and there is a folio for the first (`EmissionEndings.BadDataBurnsExactly`); with folios for all, they
  are all spent and nothing is uploaded exactly when a reference dangles (`EmissionEndings.DanglingSpendsExactly`).
- The inventory reads the columns of a CAF, the allocator its file. As long as no two ranges meet, the forecast is too high
  exactly when a CAF with folios left is foreign or expired and none of its defects shows in its columns
  (`FolioInventory.ForecastIsExact`).
- The limiter reads the clock before it takes its lock (`app/security/ratelimit.py:41-49`), so times can be registered out of
  order. A call then counts the events of its window, less those an earlier call with a later time dropped, plus older ones
  kept behind a newer one (`RateLimitHistory.EveryRunCounts`). Every call of a run finds exactly the events of its window if
  and only if no call comes after one that moved the window past an event it should count, nor finds an event out of its
  window registered after one that is in it (`RateLimitRuns.FindsWindowsExactly`). The first error lets too much through
  (`RateLimitRuns.LateHitBreaksTheBound`), and only it does (`RateLimitRuns.SlidingBound`); the second only limits too soon
  (`RateLimitRuns.OutOfOrderClockMisjudges`).
- The range of a CAF is checked and stored with nothing locked in between (`app/services/customer_service.py:371-405`).
  Folios are delivered once and in order all the same (`CafLoading.LoadingKeepsHistory`). No two ranges of an account ever
  meet, and with that the rest of the invariant holds, exactly when no CAF was stored whose range meets one stored since its
  check (`CafLoading.RangesStayApartExactly`). A CAF posted twice at once is stored twice, and then the forecast is too high
  (`CafLoading.PostedTwiceIsStoredTwice`, `CafLoading.PostedTwiceMisleads`).
- A guide book declares its lines as type 52 and looks them up without a type. Its contents survive a second emission exactly
  when every guide kept its folio (`EnvelopeRenaming.GuideBooksSurviveExactly`).
- Completing a set twice is stable exactly when no document names a case other than its position's and each document handed
  the SII as its test receiver, which counts as none, would be handed it again (`SetFillLaws.RefillIsTheSameExactly`). With
  distinct receivers, the SII at position `p` from 0, the latter holds when no more than `p` documents need one, or the SII
  comes first and the list is handed out at most once or holds nothing else (`SetReceivers.HandedAlikeExactly`).
- An element that holds nothing but ignored ones is no leaf to the comparer. Leaving out what is ignored changes no contents
  exactly when there is none (`EnvelopePruning.PruningLeavesContentsExactly`).
- A balanced reconciliation has equal totals exactly when repeated keys hid as much on either side
  (`ReconcileReport.BalancedTotalsExactly`).
- Switching the second factor off forgets the last step, but a login half-way can leave one behind. A new secret is confirmed
  exactly when its code is of a later step than every one accepted since (`TotpProtocol.NewSecretConfirmedExactly`).
- Confirming the second factor reads the secret, and later switches the factor on without looking at it again
  (`app/services/totp_service.py:107-121`). A factor that is on was confirmed with a code of its own secret exactly when no
  confirmation finished after its secret was replaced or forgotten (`TotpProtocol.AlwaysConfirmedExactly`).

## Model

| member | source | states |
|---|---|---|
| FolioHistory.NextFolioMeaning | app/services/folio_service.py:45-102 | An allocation succeeds exactly when some CAF of the account is not retired, ends past the pointer and is neither refused for its environment nor expired; it then takes the first undelivered folio of the lowest such range, and leaves every other row, pointer and folio as it was |
| FolioHistory.CandidatesAreSorted | app/services/folio_service.py:56-67 | The allocator's query yields each candidate CAF once, by ascending range, and no other |
| FolioHistory.FirstUsableMeaning | app/services/folio_service.py:69-90 | The scan stops at the first candidate that is not refused, and refuses exactly those before it |
| FolioAnswers.AllocationAnswersExactly | app/services/folio_service.py:56-90 | Why an allocation fails, for every table: there is no pointer exactly when no CAF was ever loaded; the folios are exhausted exactly when no CAF of the account has any past the pointer; otherwise the candidates are named, each once, by ascending range, and the tax authority would refuse every one |
| FolioAnswers.QueryListsOnce | app/services/folio_service.py:56-67 | The query lists every CAF with folios left past the pointer exactly once, by ascending range |
| FolioAnswers.ExhaustedDeliversNothing | app/services/folio_service.py:56-102 | Whatever run follows, a CAF that was retired or used up never delivers another folio |
| FolioHistory.TakeKeepsValid | app/services/folio_service.py:32-102 | An allocation keeps ranges disjoint, used folios a prefix of their range and every delivered folio inside a CAF; on success it delivers a folio that no one had |
| FolioHistory.LoadKeepsValid | app/services/customer_service.py:349-405 | A load with no other between its check and its commit keeps the invariant, changes no delivered folio and only adds rows |
| FolioHistory.InsertKeepsValidExactly | app/services/customer_service.py:390-404 | Storing a CAF checked earlier keeps the invariant exactly when its range meets none of its account at that moment |
| FolioHistory.RetireKeepsValid | app/services/customer_service.py:299-322 | Retiring a CAF keeps the invariant and every range |
| FolioAnswers.CheckAnswersExactly | app/services/customer_service.py:349-388 | A CAF is refused for the first check it fails, in the order of the checks; an overlap is found exactly when some row of the account shares a folio, and names the first |
| FolioAnswers.RetireAnswersExactly | app/services/customer_service.py:299-322 | Retiring fails for a CAF that is not there or is another customer's, then for one already retired; otherwise that row alone changes, and only in being retired |
| FolioAnswers.RetiringIsShown | app/services/folio_service.py:175-190 | A CAF that was offered is shown as retired from then on, and no other row changes its state |
| FolioHistory.StepKeepsSound | app/services/folio_service.py:21-166 | Every transaction, unchecked insertions included, keeps rows consistent, pointers on delivered folios and every delivered folio inside a CAF |
| FolioHistory.StepKeepsValidExactly | app/services/folio_service.py:21-166 | Every transaction keeps the whole invariant, except one that stores a CAF whose range has come to meet another of its account |
| FolioHistory.EveryRunIsAHistory | app/services/folio_service.py:32-102 | Over every run of allocations, loads, insertions checked at any earlier time, retirements, environment changes and outcomes: folios delivered per account strictly increase, each is new and lies in the CAF it came from, pointers only grow, and nothing else was ever delivered |
| FolioHistory.EveryRunIsValidExactly | app/services/customer_service.py:371-404 | A run keeps the whole invariant exactly when it leaves no two ranges of an account that meet |
| FolioHistory.DeliveredFoliosAreUnique | app/services/folio_service.py:32-102 | No folio of a run is delivered twice; each lies in the CAF it came from, and in no other unless ranges have come to meet |
| FolioHistory.PointerStandsInItsCaf | app/services/folio_service.py:21-29 | The pointer is 0 with nothing delivered, or inside a CAF whose delivered folios are exactly those up to it |
| FolioHistory.ReservationRoundTrip | app/services/folio_service.py:92-147 | After a delivery from ranges that do not meet, whatever any other worker or operator does and whatever is loaded later, the same CAF stamps that folio until the folio itself gets an outcome |
| FolioInventory.TakeUsesOne | app/services/folio_service.py:56-102 | An allocation succeeds exactly while something is deliverable, and uses up exactly one folio |
| FolioInventory.ConsecutiveTakes | app/services/folio_service.py:56-102 | `n` allocations in a row deliver exactly the smaller of `n` and the deliverable total |
| FolioInventory.ForecastIsExact | app/services/folio_service.py:175-258 | The report never forecasts less than the allocator delivers, and forecasts exactly that if and only if no CAF with folios left is foreign without its key identifier stored, or expired without its expiry stored, with no other defect showing |
| FolioInventory.ReportForecastsAllocator | app/services/folio_service.py:237-258 | From complete rows, after any run that left no two ranges meeting, `usable_remaining` is the number of consecutive allocations that succeed that day |
| FolioInventory.RunKeepsComplete | app/services/folio_service.py:105-111 | Rows that carry their columns carry them after any run |
| FolioInventory.MissingColumnsMislead | app/services/folio_service.py:175-190 | A concrete row without its columns: the report offers a folio that the allocator refuses |
| FolioInventory.FailedTakeRepairsReport | app/services/folio_service.py:69-90 | An allocation that finds nothing usable completes the rows it read, so that the report then forecasts 0 |
| FolioInventory.LoadAddsExactly | app/services/customer_service.py:349-405 | A CAF is usable the day it is loaded: what the allocator can deliver grows by exactly its folios past the pointer |
| FolioInventory.RetireRemovesExactly | app/services/customer_service.py:299-322 | Retiring a CAF takes away exactly what the allocator could still deliver from it |
| FolioInventory.DeliveredCafIsInUse | app/services/folio_service.py:175-190 | Right after a delivery the report calls its CAF in use, or used up when that was its last folio |
| FolioInventory.StatusesPartition | app/services/folio_service.py:214-221 | Issued, failed, unknown and open folios of an account add up to all its delivered folios |
| FolioInventory.FoliosAreConservedExactly | app/services/folio_service.py:214-280 | The sizes of an account's CAFs add up to its issued, failed, unknown and open folios plus the unused ones exactly when no delivered folio lies in two CAFs |
| FolioInventory.FoliosAreConserved | app/services/folio_service.py:214-280 | So they do as long as no two ranges meet |
| FolioInventory.RemainingMatchesUnused | app/services/folio_service.py:243-256 | A CAF ending past the pointer has exactly its remaining folios unused; any other has none remaining |
| FolioInventory.SumOverAccount | app/services/folio_service.py:237-258 | Walking an account's CAFs in order adds up to the sum over its rows |
| FolioAnswers.ReportCountsExactly | app/services/folio_service.py:214-221 | In the report of an account each of issued, failed, unknown and open is the number of its delivered folios with that very outcome |
| FolioAnswers.MarkMovesOneCount | app/services/folio_service.py:150-166 | Recording an outcome of an open folio lowers `open` by one in the report, raises the count of that outcome by one and leaves the others; the reports of other accounts stay |
| FolioAnswers.ReportRowsExactly | app/services/folio_service.py:237-258 | The report has exactly one row for each CAF of the account, by ascending range, with its folios past the pointer and those never delivered |
| FolioAnswers.UsableIsOfRows | app/services/folio_service.py:251-256 | The usable total of a report is that of its rows in use and pending, and of no other |
| FolioAnswers.ReportIsKept | app/services/folio_service.py:237-280 | The report keeps its word: from complete rows, after any run that left no two ranges meeting, its usable total is the number of allocations that succeed that day |
| FolioAnswers.ReportAddsUpExactly | app/services/folio_service.py:214-280 | The four counts and the unused folios of the rows add up to the sizes of the CAFs exactly when no delivered folio lies in two of them |
| FolioAnswers.StateMeans | app/services/folio_service.py:175-190 | What each state of a row says of its CAF, and that a foreign or an expired one with folios left is always shown as such |
| FolioService.FolioTables.EnsurePointer | app/services/folio_service.py:21-29 | Creates the pointer at 0 unless there is one |
| FolioService.FolioTables.Scan | app/services/folio_service.py:69-90 | The loop over candidates finds the first usable CAF and completes the columns of every row it read |
| FolioService.FolioTables.Commit | app/services/folio_service.py:92-101 | Moves the pointer, marks a finished CAF and records the folio as assigned, in one commit |
| FolioService.FolioTables.NextFolio | app/services/folio_service.py:32-102 | Carries out exactly the allocation transaction, with the errors that FolioAnswers.AllocationAnswersExactly tells apart |
| FolioService.FolioTables.CafForReserved | app/services/folio_service.py:114-147 | Looks up the CAF of a reserved folio without changing anything |
| FolioService.FolioTables.MarkAssignment | app/services/folio_service.py:150-166 | Records the outcome of a delivered folio, and does nothing for any other |
| FolioService.FolioTables.CheckCaf | app/services/customer_service.py:349-388 | What a CAF is refused for: unreadable, another's, without its key, of another environment, expired or overlapping; the first reason found is the one given |
| FolioService.FolioTables.InsertCaf | app/services/customer_service.py:390-404 | Stores the row and its pointer |
| FolioService.FolioTables.AddCaf | app/services/customer_service.py:349-405 | Loads a CAF that passes its check, when nothing comes in between |
| FolioService.FolioTables.RetireCaf | app/services/customer_service.py:299-322 | Retires a CAF of the customer that was not retired |
| FolioService.FolioTables.ReportType | app/services/folio_service.py:224-290 | The loop over the CAFs of one type builds the very report whose counts, rows and usable total the lemmas of FolioAnswers speak of |
| FolioService.FolioTables.Report | app/services/folio_service.py:193-293 | One report for each document type the customer has a CAF or a pointer for, by ascending type |
| CafLoading.LoadingKeepsHistory | app/services/customer_service.py:371-405 | However operators check and store CAFs at once, among any other transactions, folios delivered strictly increase per account, none is delivered twice, and each lies in the CAF it came from |
| CafLoading.LoadAloneIsTheLoad | app/services/customer_service.py:349-405 | With nothing in between, a check and what it stores are the load of the CAF in one transaction |
| CafLoading.RangesStayApartExactly | app/services/customer_service.py:371-404 | Over every interleaving no two ranges of an account meet, and the whole invariant holds, exactly when no CAF was stored whose range meets one stored since its check |
| CafLoading.PostedTwiceIsStoredTwice | app/services/customer_service.py:371-404 | Any CAF that would be loaded, for an account with its pointer, is stored twice when it is posted twice at once |
| CafLoading.PostedTwiceMisleads | app/services/folio_service.py:237-258 | With nothing else left in the account, the report then forecasts more than any number of allocations delivers |
| CafLoading.PostedTwiceIsNotConserved | app/services/folio_service.py:214-280 | A folio delivered from a CAF that is stored twice makes the counts of its account not add up |
| Emission.SendingOutcome | app/services/dte_service.py:139-162 | A broken upload leaves its folios failed exactly when some exception of the chain, at any depth, is a failed login or a connection never made; otherwise unknown |
| Emission.ResolveOne | app/services/dte_service.py:223-243 | One document's references resolve exactly when none points outside the batch or at its own document; each then carries the type, folio and date of the document at its position |
| Emission.ResolveBatchReferences | app/services/dte_service.py:223-243 | The batch resolves exactly when every document does, and each document is then resolved against the same numbered batch |
| Emission.MarkBatch | app/services/dte_service.py:323-330 | Puts one outcome on every folio taken and moves no other |
| Emission.Issue | app/services/dte_service.py:170-220 | Returns exactly when the content is acceptable, a folio can be had, it builds, and it uploads if asked to; takes its folio exactly when the first two hold, uploads exactly when it built and was asked to; the folio is issued exactly when it returned, failed or unknown otherwise, and no other folio moved |
| Emission.TakeBatch | app/services/dte_service.py:271-285 | Takes the folios that a run of one allocation per document delivers, in order, and stops at the first that delivers none; succeeds exactly when the run delivers them all |
| Emission.IssueBatch | app/services/dte_service.py:246-320 | Returns exactly when every document is acceptable, all folios can be had, no reference dangles, and it is built and uploaded; uploads exactly when it got that far; its folios share one outcome and no other moved; with folios for all, a dangling reference is the error exactly when there is one, and all are spent; on success every batch reference carries the type, folio and date of the document at its position |
| EmissionEndings.IssueSettles | app/services/dte_service.py:186-213 | However one emission ends, its folio has the outcome of the emission, issued exactly when it returned, and no other folio moved |
| EmissionEndings.AllocationIsARun | app/services/dte_service.py:271-285 | Allocating for a batch succeeds exactly when the run of its allocations delivers a folio for each document, and is then that run |
| EmissionEndings.AllocationTakes | app/services/dte_service.py:271-285 | The folios of a batch are new, distinct and of the types of its documents, wherever it stopped, and nothing else moved |
| EmissionEndings.BatchEndsExactly | app/services/dte_service.py:246-320 | When a batch succeeds and uploads, and which folios it takes |
| EmissionEndings.BatchSettles | app/services/dte_service.py:271-330 | However a batch ends, all its folios share the outcome of the emission, issued exactly when it returned, and no other folio moved |
| EmissionEndings.DanglingSpendsExactly | app/services/dte_service.py:223-243 | With acceptable documents and folios for all, a batch ends with its reference error, all its folios failed and nothing uploaded, exactly when some reference dangles |
| EmissionEndings.BadDataBurnsExactly | app/services/dte_service.py:260-288 | A batch with bad data burns a folio exactly when each document is acceptable by itself and there is a folio for the first |
| EmissionEndings.SelfReferenceSpends | app/services/dte_service.py:238-239 | One acceptable document that refers to its own position spends its folio and ends in a data error |
| EmissionEndings.ResolvedAgainstResolved | app/services/dte_service.py:223-243 | A reference resolved against the numbered batch names the same document of the emitted one |
| EmissionEndings.BadContentTouchesNothing | app/services/dte_service.py:170-184 | A document of another issuer or with invalid content leaves every table as it was; any other takes its folio whenever one is to be had |
| EmissionEndings.BadContentInBatchTouchesNothing | app/services/dte_service.py:254-270 | So does a batch with one such document; without any, it takes a folio for each whenever they are to be had |
| EmissionEndings.NeverSentExactly | app/services/dte_service.py:139-162 | The walk along the chain of causes finds proof that an upload never left exactly when some exception in it, at any depth, is a failed login or a connection that was never made |
| EmissionEndings.IssueFoliosTell | app/services/dte_service.py:186-213 | However one emission ends, its folio is issued exactly when it returned; after a broken upload it is failed exactly when the chain of causes holds such a proof, and unknown otherwise; after anything earlier it is failed |
| EmissionEndings.BatchFoliosTell | app/services/dte_service.py:271-330 | The same of every folio of a batch, wherever it stopped |
| EmissionEndings.BatchFaultsExactly | app/services/dte_service.py:246-320 | Which error a batch ends with, in the order in which it can fail |
| EmissionEndings.EmittedBatchMeaning | app/services/dte_service.py:223-243 | An emitted batch has the types, dates and references of its documents, and each reference inside it carries the type, the folio in digits and the date of the document it names |
| EmissionAlone.WorkerAloneIsTheBatch | app/services/dte_service.py:246-330 | A worker whose steps nothing interrupts leaves exactly the tables, folios and outcome that the ending of its batch says: the interleaved steps refine the batch |
| EmissionWorkers.StepsKeepInvExactly | app/services/folio_service.py:121-147 | A step keeps every folio in one hand and every recorded outcome in place exactly when it does not use a reserved folio that is held |
| EmissionWorkers.EveryInterleavingSettlesExactly | app/services/dte_service.py:170-330 | Over every interleaving and every pattern of deaths, at every moment no folio is in two hands and every folio recorded has its worker's outcome, exactly when no reserved folio is used by two emissions at once |
| EmissionWorkers.SettledWorkersAgree | app/services/dte_service.py:170-330 | Two workers share no folio, and what a settled one recorded is what the tables say |
| EmissionWorkers.SharedReservationOverwrites | app/services/folio_service.py:121-147 | Whenever an emission uses a reserved folio another still holds, wherever both stand and whatever else they hold, the first can settle it with its outcome and the second then overwrite that with another |
| EmissionRecords.ArchiveIsWriteOnce | app/services/idempotency.py:167-208 | Archiving changes no stored document, adds exactly those of the envelope and touches no marker |
| EmissionRecords.ArchiveStoresEnvelope | app/services/idempotency.py:167-224 | A document of an archived envelope is retrievable as emitted exactly when its folio had no other document before |
| EmissionRecords.RetryAnswersTheSame | app/services/idempotency.py:60-120 | A retry of a call that answered is answered the same, executes nothing and changes nothing |
| EmissionRecords.TakenKeysExecuteNothing | app/services/idempotency.py:60-120 | Under a key with any marker a call executes nothing, changes no row, and is answered the stored response, the stored failure, or that it is in progress |
| EmissionRecords.FreeKeysExecute | app/services/idempotency.py:60-88 | A call whose key is free, or that has none, executes, and answers or fails as its emission does unless the rows it archives collide |
| EmissionRecords.FailuresAreRemembered | app/services/idempotency.py:123-141 | After a failure that is no fault of the data every retry is told its first 500 characters; after one that is, the key is free again |
| IdempotencyProtocol.RunAloneIsTheProtocol | app/services/idempotency.py:60-88 | From every store, a call by itself leaves what the protocol's steps leave when nothing comes in between, and executes exactly when they execute |
| Idempotency.EmissionStore.Claim | app/services/idempotency.py:91-100 | Claims a key exactly when it is free |
| Idempotency.EmissionStore.CloseFailed | app/services/idempotency.py:123-141 | A data error frees the key, any other closes it for good with its first 500 characters |
| Idempotency.EmissionStore.Archive | app/services/idempotency.py:167-208 | Stores the documents without a row, all or none |
| Idempotency.EmissionStore.Run | app/services/idempotency.py:60-88 | One whole call as EmissionRecords.RunAlone: nothing executed under a key with a marker, and what the protocol leaves otherwise |
| IdempotencyProtocol.EveryRunUploadsOnce | app/services/idempotency.py:60-141 | Over every interleaving and every pattern of deaths, no two uploads carry one key, as long as no data error follows an upload under a key |
| IdempotencyProtocol.LateDataFaultUploadsTwice | app/services/idempotency.py:123-141 | Whenever a call that uploaded under a key then fails with a data error, a plain retry uploads a second time |
| IdempotencyProtocol.UploadsOnceExactly | app/services/idempotency.py:60-141 | A step leaves a second upload under one key impossible exactly when it is not a data error, under a key, after the upload |
| IdempotencyProtocol.MarkerDiscipline | app/services/idempotency.py:91-141 | A closed marker never changes, and a running one is touched only by the call that claimed it |
| IdempotencyProtocol.DoneIsForever | app/services/idempotency.py:103-120 | Over any run a closed marker stays as it is |
| IdempotencyProtocol.ArchiveNeverChanges | app/services/idempotency.py:167-224 | Over any run no archived document ever changes |
| IdempotencyProtocol.EveryRunKeepsArchiveOk | app/services/idempotency.py:76-88 | With folios no other emission had, every done marker's documents are archived as emitted |
| IdempotencyProtocol.RetryAgreesWithArchive | app/services/idempotency.py:83-120 | Once a request is done every later replay gives the same response, and each of its documents is retrievable as emitted, for ever |
| EmissionEndToEnd.BackedIsFresh | app/services/idempotency.py:167-208 | Documents numbered with folios taken for their call are new to the archive and to every other call |
| EmissionEndToEnd.RetriesAgreeEndToEnd | app/services/idempotency.py:60-224 | From an empty store, over any run of the allocator and any interleaving of emissions that number their documents with folios taken for them, every replay of a done request agrees with its first answer and with the archive, for ever |
| EmissionCalls.AnswersAreBacked | app/services/dte_service.py:170-330 | What a call answers bears different folios, each taken for that call and no other |
| EmissionCalls.EveryAnswerIsFresh | app/services/dte_service.py:170-330 | Over every interleaving of allocations for calls, operators, and calls that answer, fail or die, every answer bears folios no other call ever had |
| EmissionCalls.RetriesAgree | app/services/idempotency.py:60-224 | From an empty store and over every such interleaving, with nothing assumed of what emissions answer, once a request is done every later replay gives the same response, and each of its documents is retrievable as emitted, for ever |
| EmissionCalls.BatchBearsItsFolios | app/services/dte_service.py:271-320 | The documents of an emitted batch are those that bear the folios it took, in order |
| EmissionAlone.CallAloneAnswersItsBatch | app/services/dte_service.py:271-320 | A call that nothing interrupts takes the folios the allocator delivers, answers with documents that bear them in order, and leaves the rows that a run of its request leaves with that answer |
| EmissionCalls.IssueIsEarlyExactly | app/services/dte_service.py:170-220 | The end of one emission leaves no way to a second upload exactly unless its envelope was built and sent and the upload failed with an error in the data |
| EmissionCalls.BatchIsEarlyExactly | app/services/dte_service.py:246-320 | The same of a batch |
| RateLimit.OtherKeysDoNotMatter | app/security/ratelimit.py:34-66 | Leaving the calls on other keys out of a run of the limiter, whatever their clocks, changes neither a key's queue nor its next verdict |
| RateLimitAnswers.AnswersExactly | app/security/ratelimit.py:34-62 | By position in the queue: a call drops what is older than the window in front, answers by how many events remain, and adds its own exactly when it should |
| RateLimitAnswers.KeysExactly | app/security/ratelimit.py:56-62 | Every key that was called is remembered, but for the keys without events when a registration leaves more than ten thousand; no other queue changes |
| RateLimitAnswers.AskingForetells | app/security/ratelimit.py:41-54 | Asking is told what a hit at that moment is told, before and after asking, and changes nothing for it |
| RateLimitAnswers.ReferenceCountsEvents | app/security/ratelimit.py:34-66 | The limiter the others are compared with limits exactly when the events of the key in the window before the call, counted one by one, are as many as allowed |
| RateLimitHistory.WindowSplits | app/security/ratelimit.py:34-39 | Of all that was registered for a key, the events of a window are those of it that were dropped followed by those of it that are kept |
| RateLimitHistory.RightWithoutErrors | app/security/ratelimit.py:34-39 | A call finds exactly the events of its window if and only if none of them was dropped and nothing older is kept; the two errors never cancel |
| RateLimitHistory.NextCountsRightExactly | app/security/ratelimit.py:34-49 | If every call so far found its window, the next does exactly when no earlier call moved the window past an event it should count, and no event out of its window was registered behind one in it |
| RateLimitHistory.ErrorsHaveCauses | app/security/ratelimit.py:34-49 | However the calls went, a call counts too little only for the first reason and too much only for the second |
| RateLimitHistory.EveryRunCounts | app/security/ratelimit.py:34-66 | After any run, what a call counts is the events of its window, less those dropped before, plus those kept beyond it |
| RateLimitRuns.FindsWindowsExactly | app/security/ratelimit.py:34-66 | Every call of a run on a key finds exactly the events of its window if and only if the times registered before each are in order for it |
| RateLimitRuns.NextCallFindsItsWindowExactly | app/security/ratelimit.py:34-66 | After such a run whether the next call does is known beforehand from the times alone |
| RateLimitRuns.StepRefines | app/security/ratelimit.py:34-66 | A call whose time is in order gives the verdict of the full history, whatever was pruned or purged before |
| RateLimitRuns.VerdictsRefine | app/security/ratelimit.py:34-66 | Over any mix of calls on any keys, every verdict for a key whose times are in order is the full history's |
| RateLimitRuns.RunRefines | app/security/ratelimit.py:34-66 | With the times of each key in order, every verdict of a run is the full history's |
| RateLimitRuns.ForwardIsTimely | app/security/ratelimit.py:34-66 | They are in order whenever the clock of the key does not run backwards |
| RateLimitRuns.SlidingBound | app/security/ratelimit.py:41-49 | Every closed interval as long as the window, wherever it starts, contains at most `max_events` accepted hits on a key, as long as no hit comes after a call that moved the window past an event of its own; what is counted too much never breaks it |
| RateLimitRuns.TimelyMissesNothing | app/security/ratelimit.py:41-49 | That is so in particular with the times of the key in order |
| RateLimitRuns.OutOfOrderClockMisjudges | app/security/ratelimit.py:41-49 | A run in which an event kept behind a newer one limits a call the full history lets through |
| RateLimitRuns.LateHitBreaksTheBound | app/security/ratelimit.py:41-49 | A run in which an event dropped by a later call lets a hit through, and one window then holds more hits than allowed |
| RateLimit.SlidingWindowLimiter.PruneKey | app/security/ratelimit.py:34-39 | Makes sure the key has a queue and drops its leading events older than the window |
| RateLimit.SlidingWindowLimiter.Hit | app/security/ratelimit.py:41-49 | Registers the event unless the window is full, and says whether it was |
| RateLimit.SlidingWindowLimiter.IsLimited | app/security/ratelimit.py:51-54 | Says whether the window is full, registering nothing |
| RateLimit.SlidingWindowLimiter.Record | app/security/ratelimit.py:56-62 | Registers the event, and forgets the keys with no events when there are too many |
| RateLimit.SlidingWindowLimiter.Reset | app/security/ratelimit.py:64-66 | Forgets everything |
| EnvelopeRenaming.DeclaredIsRenamed | app/services/certification_compare.py:82-101 | A node of the second emission declares what it declared in the first, renamed |
| Text.LexExactly | app/services/certification_compare.py:112-125 | The order of the differences: one path before another when it is a beginning of it, or has the lower character where they first differ |
| EnvelopeMeaning.EntriesExactly | app/services/certification_compare.py:60-79 | The contents below an element hold exactly one entry for each address that leads to a leaf through nothing ignored: its names with their places among their namesakes, and its text |
| EnvelopeMeaning.NamedByAppearance | app/services/certification_compare.py:82-101 | A declared folio is called by its type and by how many different ones of that type were declared up to where it first is |
| EnvelopeMeaning.FindIsFirst | app/services/certification_compare.py:60-101 | What is looked up in an element is the first of that name in document order, at any depth |
| EnvelopeRenaming.OwnedIsLookedUp | app/services/certification_compare.py:60-101 | The folio a node is read to declare is one that flattening looks up, when it is a leaf |
| EnvelopeRenaming.LabelsSurvive | app/services/certification_compare.py:82-101 | Corresponding folios get the same name in both emissions, whatever the new ones are |
| EnvelopeRenaming.NamedAlikeExactly | app/services/certification_compare.py:73-79 | A folio that occurs reads the same in both emissions exactly when it is declared or did not change |
| EnvelopeRenaming.FlattenAgreesExactly | app/services/certification_compare.py:60-79 | Twins flatten to as many leaves, the same ones exactly when all that is looked up below reads the same |
| EnvelopeRenaming.ContentsSurviveExactly | app/services/certification_compare.py:60-109 | The contents of a second emission are those of the first exactly when every folio it looks up without declaring it is the same in both |
| EnvelopeRenaming.ContentsSurviveRenaming | app/services/certification_compare.py:60-109 | Renaming the folios an envelope declares, to any that keep those that occur distinct, and changing anything that is ignored, leaves its contents as they were |
| EnvelopeRenaming.DocumentsSpeak | app/services/certification_compare.py:74-89 | In an EnvioDTE or an EnvioBOLETA the type and folio a document declares are those flattening looks up |
| EnvelopeRenaming.BookLinesSpeak | app/services/certification_compare.py:74-92 | The folio a purchase or sales book line declares is typed as flattening types it |
| EnvelopeRenaming.ReemissionHasTheSameContents | app/services/certification_compare.py:60-109 | Every envelope re-emitted under such new folios has the same contents, and declares the new ones |
| EnvelopeRenaming.NewFoliosMakeNoDifference | app/services/certification_compare.py:60-109 | A declared folio replaced by any that occurs nowhere in the envelope: the second emission declares it and has the same contents |
| EnvelopeRenaming.InvoicesSurvive | app/services/certification_compare.py:60-109 | One invoice emitted under any folio, and again under any other, has the same contents |
| EnvelopeRenaming.GuideLinesSpeak | app/services/certification_compare.py:93-94 | A guide-book line with leaf fields is one whose folio is looked up without a type |
| EnvelopeRenaming.GuideBooksSurviveExactly | app/services/certification_compare.py:74-94 | When nothing else undeclared changed, the contents of a guide book survive exactly when every guide kept its folio |
| EnvelopeRenaming.GuideBooksDoNotSurvive | app/services/certification_compare.py:74-94 | The smallest guide book, with one line, under two folios: its contents differ |
| EnvelopePruning.PruningLeavesContentsExactly | app/services/certification_compare.py:60-79 | Without what is ignored an envelope has one entry more for each element that held nothing else, and the same contents exactly when there is none |
| EnvelopePruning.ContentsSurviveWhateverIsIgnored | app/services/certification_compare.py:60-109 | Two emissions that differ in folios and in whatever is ignored, present or not, have the same contents exactly when every folio looked up without being declared is the same |
| EnvelopePruning.RemarkHidesField | app/services/certification_compare.py:63-71 | A remark inside a field takes the field out of the contents |
| EnvelopeCompare.SegmentReadsBack | app/services/certification_compare.py:67-68 | A path segment determines its name, its position and what follows |
| EnvelopeCompare.PathsAreDistinct | app/services/certification_compare.py:60-79 | No two leaves of a tree get the same path |
| EnvelopeCompare.NamesAreInjective | app/services/certification_compare.py:82-101 | Different folios of one type never get the same name |
| EnvelopeCompare.ToMapLosesNothing | app/services/certification_compare.py:119-120 | With distinct paths the dictionary holds exactly the entries, one each |
| EnvelopeCompare.Compare | app/services/certification_compare.py:112-125 | The differences are exactly the paths where the two dictionaries differ, with what each has there, in alphabetical order |
| EnvelopeCompare.EqualExactlyWhenSameLeaves | app/services/certification_compare.py:104-125 | Two envelopes compare equal exactly when they have the same leaves |
| EnvelopeWalk.VisitsMeetDeclarations | app/services/certification_compare.py:86-96 | Visiting in document order meets exactly the declarations of the tree |
| EnvelopeWalk.NameFolios | app/services/certification_compare.py:82-101 | The loop names every declared folio, the n-th document of its type |
| EnvelopeWalk.EmitLeaves | app/services/certification_compare.py:60-79 | The walk with counters appends the leaves of the flattening, in order |
| EnvelopeWalk.ContentsOf | app/services/certification_compare.py:104-109 | Naming first and flattening after gives exactly the contents of the envelope |
| SheetLaws.CasesAreTheHeaders | app/services/certification_sheet.py:298-318 | The cases are the headers, in order, and every header is of the set |
| SheetLaws.ReadSetsAreNumbered | app/services/certification_sheet.py:298-327 | An accepted sheet has its cases numbered 1, 2, 3 and so on, one document each, at least one |
| SheetLaws.EarlierCasesStay | app/services/certification_sheet.py:320-324 | Each case is read from its own lines and the documents before it, and later ones change none |
| SheetLaws.OpenTableExactly | app/services/certification_sheet.py:347-369 | The table open after some lines is the one of the first header since the last blank line; a later header is one of its rows |
| SheetLaws.CaseAcceptedExactly | app/services/certification_sheet.py:345-418 | The lines of a case are accepted exactly when each can be read where it stands: a row that fits the open table, or a complete key outside it, a reference only to an earlier case |
| SheetLaws.CaseMeaning | app/services/certification_sheet.py:345-418 | An accepted case is of the type of its last DOCUMENTO line outside a table, refers where its last reference points, and has exactly the rows of its item tables |
| SheetAnswers.CaseLinesExactly | app/services/certification_sheet.py:298-318 | The lines of the n-th case are exactly those between the n-th header and the next header, separator or end of the set |
| SheetAnswers.FreeLinesExactly | app/services/certification_sheet.py:298-318 | Every other line that is no header and closes no case is free text, in order |
| SheetAnswers.CaseErrorExactly | app/services/certification_sheet.py:345-418 | A refused case gives the error of its first line that cannot be read where it stands |
| SheetAnswers.CaseSaysExactly | app/services/certification_sheet.py:377-405 | The reason and the kind of transfer of a case are its last ones; its outside references and discounts are all of them, in order |
| SheetAnswers.CustomsExactly | app/services/certification_sheet.py:345-418 | A case is of customs exactly when some line outside its tables says so |
| SheetAnswers.DiscountedExactly | app/services/certification_sheet.py:428-431 | Discounts are refused exactly when one is for a line that is not there; each line ends with the last one given for it |
| SheetAnswers.CaseRefusedExactly | app/services/certification_sheet.py:420-463 | What a case that can be read is refused for, in order |
| SheetAnswers.CaseDocumentExactly | app/services/certification_sheet.py:420-463 | Type, lines, receiver and references of the document of a case: first its reference to the case it modifies, with the code of its reason, and then, in an export, the outside ones |
| SheetAnswers.FirstBadCaseDecides | app/services/certification_sheet.py:320-324 | The first case that is out of order or wrong decides the error of the sheet |
| SheetLaws.ReadSetsReferBackward | app/services/certification_sheet.py:370-376 | Every reference to a case that the reader accepts is to an earlier one |
| SheetLaws.CompleteAllExactly | app/services/certification_sheet.py:548-552 | Completing succeeds exactly when the document has every line the note names |
| SheetLaws.CompletedLine | app/services/certification_sheet.py:553-564 | A completed line keeps its place and all it says, and adds only what the document's first line of that name says |
| SheetLaws.InheritExactly | app/services/certification_sheet.py:527-565 | A note fails to inherit exactly when it changes amounts without lines, or names a line the document does not have |
| SheetLaws.CaseTakesLines | app/services/certification_sheet.py:433-445 | One note: annulling without lines takes the very lines, anything else lines of the same names |
| SheetLaws.LinesComeFromTheOrigin | app/services/certification_sheet.py:433-565 | However long a chain of notes, every line of the last names a line of the document the chain starts from |
| SheetLaws.AnnulledLinesAreTheOrigins | app/services/certification_sheet.py:538-541 | If every note of the chain annuls without lines of its own, the lines are that document's |
| SheetLaws.ReadSetsAreIssuedInOnePass | app/services/certification_fill.py:319-366 | For every accepted sheet, taxpayer and test receivers: one pass gives each note the receiver of the document its chain starts from, and issuing again the same day issues the same exactly when each document handed the SII would be handed it again, as is always so without the SII among the receivers |
| SheetService.CutCases | app/services/certification_sheet.py:298-318 | The loop gives each line to the case open when it is met or to the free text, and stops at a header of another set, as `SheetReader.SplitCases` specifies |
| SheetService.ScanCase | app/services/certification_sheet.py:345-418 | The loop reads every line of a case in order and stops at the first that cannot be read where it stands |
| SheetService.TakeFrom | app/services/certification_sheet.py:527-565 | The loop fills, field by field, exactly what `SheetReader.Inherit` specifies, or gives its error |
| SheetService.ReadDocuments | app/services/certification_sheet.py:298-327 | Returns the documents of the set, each read after those before it, or the first thing wrong with the sheet |
| SetReceivers.PassSettles | app/services/certification_fill.py:330-366 | What each document ends up as, in terms of the definition and the finished lot; nothing else in it changes |
| SetFillAnswers.PassGives | app/services/certification_fill.py:330-366 | Whichever way notes refer, every document of a finished lot has what the instructions give it, test receivers going in turn to those that need one |
| SetFillAnswers.FilledReceiversExactly | app/services/certification_fill.py:246-366 | The same of a filled definition, in terms of the definition alone |
| SetReceivers.OnePassSuffices | app/services/certification_fill.py:319-366 | Every note without a receiver of its own ends with that of the document its chain starts from, however long the chain |
| SetReceivers.ForwardNotesExactly | app/services/certification_fill.py:363-366 | A note that does not refer backward gets what its document had in the definition, so one pass is enough for it exactly when the pass leaves that document's receiver as it was |
| SetReceivers.ForwardReferencesMiss | app/services/certification_fill.py:363-366 | A note that refers forward is left without a receiver |
| SetReceivers.EnoughReceiversExactly | app/services/certification_fill.py:358-380 | With distinct test receivers, no two documents share one exactly when there are enough: the warning is raised exactly when some do |
| SetReceivers.SecondPassStaysExactly | app/services/certification_fill.py:319-366 | A second pass over a finished lot changes nothing exactly when each document handed the SII would be handed it again if those alone were served |
| SetReceivers.HandedAlikeExactly | app/services/certification_fill.py:351-362 | With distinct receivers and the SII at position p, that is when at most p documents need one, or the SII comes first and the list is handed out at most once or holds nothing else |
| SetReceivers.WithoutSiiHandedAlike | app/services/certification_fill.py:351-362 | Without the SII among the receivers it always is |
| SetReceivers.SiiReceiverMoves | app/services/certification_fill.py:358-362 | With the SII as a test receiver a second pass hands receivers out again |
| SetFillLaws.StripIdempotent | app/services/certification_fill.py:145-188 | Storing twice is storing once, through nested groups |
| SetFillLaws.StripRemovesExactlySystemData | app/services/certification_fill.py:145-188 | A definition is left as it is exactly when it holds nothing the system puts in, at any depth |
| SetFillLaws.FillIgnoresSystemData | app/services/certification_fill.py:223-316 | Definitions with one stored form are issued alike |
| SetFillLaws.StripUndoesFill | app/services/certification_fill.py:164-174 | Stripping the references of a filled document gives back those of the definition |
| SetFillLaws.StripRefsConcat | app/services/certification_fill.py:164-174 | Storing keeps or drops each reference by itself and in its place |
| SetFillAnswers.StoredExactly | app/services/certification_fill.py:145-188 | What storing touches for each endpoint, through nested groups, and that it touches nothing else |
| SetFillLaws.RefillIsTheSameExactly | app/services/certification_fill.py:246-269 | With backward references, filling a filled lot again the same day leaves it exactly when no document names a case other than its position's and each document handed the SII would be handed it again |
| SetFillLaws.RefillIsTheSame | app/services/certification_fill.py:232-289 | Filling a filled definition again the same day leaves it exactly when every lot in it, at any depth, meets that condition; receipts always do |
| SetFillLaws.FilledDocumentsAreOfTheDay | app/services/certification_fill.py:246-253 | Every document of a filled lot is the taxpayer's and of the day, and otherwise as defined |
| SetFillLaws.FilledReferencesAreComplete | app/services/certification_fill.py:254-268 | It names its case first unless the set has none, dates its outside references and keeps every reference |
| SetFillAnswers.FilledReferencesExactly | app/services/certification_fill.py:254-268 | Its references are the one to its case and then the stored ones, in order, the outside ones under the day |
| SetFillLaws.FilledNotesInherit | app/services/certification_fill.py:246-269 | In a filled lot with backward references every note is issued to the receiver its chain starts from |
| SetFillLaws.LatestMonthIsLatest | app/services/certification_fill.py:305-310 | The month of a generated book is the latest of its dated lines |
| SetFillLaws.GeneratedBooksAreOfTheirLines | app/services/certification_fill.py:305-310 | A generated book holds the lines drawn for the cases it voids; if some line is dated its period is the month of a dated line and none is of a later one, and otherwise it is the current month |
| SetFillLaws.OtherBooksKeepTheirLines | app/services/certification_fill.py:293-303 | Any other book is of the current month; every line ends with a date, the one it had or else the day |
| SetFillLaws.FilledBooksAreNotified | app/services/certification_fill.py:289-297 | A filled book has the code of its set as its notification number exactly when that is a numeral, and no voided cases |
| SetFillService.KeepCaseReferences | app/services/certification_fill.py:164-174 | Keeps exactly the references that are not the system's, in order, outside ones without their date |
| SetFillService.StripDefinition | app/services/certification_fill.py:145-188 | The loops leave exactly the stored form of the definition, through nested groups |
| SetFillService.AssignReceivers | app/services/certification_fill.py:319-366 | One pass in place leaves the lot as `SetFill.Receivers` specifies and counts the documents that needed a test receiver |
| SetFillService.CompleteDocument | app/services/certification_fill.py:246-268 | Puts in issuer, day, case reference and dates, and takes the case number out |
| SetFillService.FillDefinition | app/services/certification_fill.py:223-316 | Returns the definition of any endpoint as the lemmas on filled lots, receipts and books describe it, through nested groups |
| ReconcileReport.Run | app/services/rcv_service.py:74-141 | The three groups list exactly the keys they should, one entry each, by type and folio, with the counts and totals |
| ReconcileAnswers.OnlyExactly | app/services/rcv_service.py:89-137 | Each side's own group shows exactly the documents that side has and the other lacks, by type, folio and normalised RUT, as the last of them on its side |
| ReconcileAnswers.MismatchedExactly | app/services/rcv_service.py:96-115 | The mismatched are exactly the documents both sides have whose last ones differ in an amount or the date, with what either side has in each field that differs and in no other |
| ReconcileAnswers.GroupsAreOrdered | app/services/rcv_service.py:132-137 | Each group is by type and, within a type, by folio |
| ReconcileReport.ListDifferences | app/services/rcv_service.py:98-105 | Exactly the amounts and the date that differ, and none exactly when the documents agree |
| ReconcileReport.TotalsReconcile | app/services/rcv_service.py:89-141 | The two totals differ by what only one side has, plus the differences of the mismatched, plus what repeated keys hid on either side |
| ReconcileReport.TotalsReconcileExactly | app/services/rcv_service.py:89-141 | With unique keys the three groups explain the whole difference, and balanced means equal totals |
| ReconcileReport.BalancedExactly | app/services/rcv_service.py:138-138 | Balanced means the same keys with the same amounts and dates |
| ReconcileReport.BalancedTotalsExactly | app/services/rcv_service.py:138-140 | A balanced report has equal totals exactly when repeated keys hid as much on either side |
| ReconcileReport.GroupsPartition | app/services/rcv_service.py:125-131 | Every document is either matched or only on its side |
| ReconcileReport.RepeatedKeysHideTotals | app/services/rcv_service.py:89-94 | A side that repeats a key is reported balanced with a total that is off by the first document |
| Reconcile.TotalsSplit | app/services/rcv_service.py:89-94 | A side's total is what its index holds plus what later documents replaced |
| ReconcileAnswers.IndexExactly | app/services/rcv_service.py:89-94 | An index holds exactly the last document of each key |
| BookLine.Convert | app/services/book_service.py:68-107 | Every amount in pesos, and the total of a foreign line that closed as the sum of its converted parts |
| BookLine.RoundingExactly | app/services/book_service.py:58-65 | Rounding errs by at most half a peso, away from zero on a tie, and nothing else does |
| BookLine.AmountsExactly | app/services/book_service.py:58-101 | The pesos of an amount are the integer nearest to it at the rate, away from zero on a tie, exactly when the line names a currency and a rate; and otherwise the amount without its fraction |
| BookLine.AmountsAreConverted | app/services/book_service.py:83-107 | Every amount is declared so, but for the total of a foreign line that closed, which is the sum of its three parts as declared |
| BookLine.TotalWithinOnePeso | app/services/book_service.py:83-96 | Over all signs the converted total is within one peso of converting it directly and a peso and a half of its exact value |
| BookLine.OnePesoIsReached | app/services/book_service.py:83-96 | The bound of one peso is reached in both directions |
| BookLine.EveryAmountIsConverted | app/services/book_service.py:90-94 | Every other amount is within half a peso of its exact value, and no amount stays in the foreign currency |
| BookLine.PesosStay | app/services/book_service.py:97-101 | A line in pesos is declared as it came |
| BookLine.BooksDriftLittle | app/services/book_service.py:83-121 | The totals of a book drift from their exact value by at most a peso and a half for each foreign line |
| BookLine.ClosedBooksAddUp | app/services/book_service.py:83-121 | A book whose lines close, foreign ones in their own currency, adds up in pesos to the peso |
| Totp.Account.StartEnrollment | app/services/totp_service.py:45-59 | Replaces the secret unless the factor is on |
| Totp.Account.VerifyCode | app/services/totp_service.py:62-104 | Accepts the first matching step of the window unless it or a later one was spent, and spends it |
| Totp.VerifyExactly | app/services/totp_service.py:62-104 | A code passes exactly when it is that of a step of the window and the earliest such step is past the last one spent; that step is then spent, and nothing else changes |
| Totp.Account.ActivateFactor | app/services/totp_service.py:107-129 | Switches the factor on with a fresh code and hands over the recovery codes, or changes nothing |
| Totp.ActivateExactly | app/services/totp_service.py:107-129 | What activation fails for, in order, and what it changes when it does not |
| Totp.Account.DisableFactor | app/services/totp_service.py:167-178 | Forgets secret, last step and recovery codes |
| TotpProtocol.AcceptedStepsIncrease | app/services/totp_service.py:62-104 | However requests interleave, the steps accepted while the factor is on strictly increase |
| TotpProtocol.FewCodesPass | app/services/totp_service.py:82-104 | For requests that read the clock between steps a and b at most b - a + 3 codes pass |
| TotpProtocol.SwitchedOffForgets | app/services/totp_service.py:167-178 | If no request is half-way when the factor is switched off, a factor that is off remembers no step |
| TotpProtocol.NewSecretConfirmedExactly | app/services/totp_service.py:82-129 | With the factor off, a code of a new secret confirms it exactly when it matches in the window and its step is above every one accepted since the switch-off |
| TotpProtocol.NewSecretsAreConfirmed | app/services/totp_service.py:107-129 | If no request is half-way when the factor is switched off, a new secret is confirmed exactly by its codes in the window |
| TotpProtocol.LateRequestHoldsBackNewSecret | app/services/totp_service.py:90-97 | After a login that finished once the factor was off, a code of the new secret is accepted exactly when its step is above the one the login left behind |
| TotpProtocol.ConfirmAloneActivates | app/services/totp_service.py:107-129 | A confirmation with nothing between its two steps is the activation of the factor |
| TotpProtocol.LoginAloneVerifies | app/services/totp_service.py:62-104 | A login with nothing between its two steps is the verification of its code |
| TotpProtocol.AlwaysConfirmedExactly | app/services/totp_service.py:107-129 | At every moment of a run a factor that is on has a secret and was confirmed with a code of it, exactly when no confirmation finished after its secret was replaced or forgotten |
| TotpProtocol.ReplacedSecretIsSwitchedOn | app/services/totp_service.py:107-121 | Replacing the secret while a confirmation is half-way switches on a secret no code of which was given |

## Left out

- FolioInventory.ReportForecastsAllocator: speaks of rows that carry their key identifier, authorisation and expiry; for older rows FolioInventory.ForecastIsExact gives the exact condition.
- FolioService.FolioTables.Report: does not model the list of folios to review, its 1000-row cut or the dates of delivery.
- FolioService.FolioTables.CheckCaf: the parsing of the file, its key check and the comparison of RUTs are parameters.
- CafLoading.RangesStayApartExactly: the constraint on the pointer row can refuse the first CAF of a type when another is being stored; that operator is taken to give up. CAFs of equal range, which exist only once ranges meet, are read in some order.
- Emission.Issue: does not model building, signing, validating and uploading the envelope; their outcomes are parameters. Export documents, settlements and receipts repeat the same protocol and are not modelled, nor is the receipt batch, which stores rows outside any handler.
- EmissionWorkers.EveryInterleavingSettlesExactly: a worker that dies leaves its folios assigned; nothing in the source resolves them.
- IdempotencyProtocol.EveryRunUploadsOnce: an upload is one atomic step; encryption and the JSON form of a response are invertible and left out.
- RateLimitRuns.RunRefines: the clock is a real number, and the Redis limiter, with another boundary and another clock, is not modelled.
- EnvelopeRenaming.ContentsSurviveExactly: asks that a folio be a leaf whose type is read from the element that declares it; EnvelopeRenaming.DocumentsSpeak, EnvelopeRenaming.BookLinesSpeak and EnvelopeRenaming.GuideLinesSpeak show that documents and lines of both kinds of book meet this.
- EnvelopeCompare.PathsAreDistinct: asks that element names contain no bracket, as XML names do.
- EnvelopeWalk.NameFolios: a book line without a parent, which the source cannot read, is taken as not declared.
- SheetService.ScanCase: a line is given with its key already recognised and with how it reads as a row; the regular expressions, the reading of numbers, customs data, charges and commissions are not modelled.
- SetFillService.FillDefinition: the notes for whoever reviews the set are not modelled, except how many documents need a test receiver; the lines of a generated book are a parameter, and a missing list is an empty one.
- SetFillLaws.RefillIsTheSame: books are excluded, because filling consumes the cases they void.
- ReconcileReport.Run: entries of equal type and folio come in some order; the normalisation of RUTs is a parameter.
- BookLine.Convert: amounts are exact rationals; the precision of the decimal context is not modelled.
- Totp.Account.VerifyCode: the code of a secret at a step is a parameter, and the presented code comes without blanks around it; the use of recovery codes is not modelled.
- TotpProtocol.AlwaysConfirmedExactly: asking for an enrolment and switching off are one step each.
- The classification of known differences, the traffic lights, causes, previews and templates of the certification module: tables of labels and single-branch decisions.
- Routers, schemas other than the checks cited, migrations, front ends, audit log, roles and user administration.
