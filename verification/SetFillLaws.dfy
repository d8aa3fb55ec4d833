/**
 Storing and issuing are a normal form and its completion: storing twice is storing once, what the
 system knows is never read from a definition, and issuing a filled definition again the same day
 issues the same.
 */
module SetFillLaws {
  import opened Wrappers
  import opened SetFill
  import opened SetReceivers
  import Text

  // ---------------------------------------------------------------- references

  lemma {:induction false} StrippedRefs(refs: seq<Ref>)
    ensures forall r <- StripRefs(refs) :: !IsCaseRef(r) && Undated(r) == r
  {
    if refs != [] {
      StrippedRefs(refs[..|refs| - 1]);
    }
  }

  /** Every reference that is not the system's is kept, in its place, but for its date. */
  lemma {:induction false} CleanRefsStay(refs: seq<Ref>)
    requires forall r <- refs :: !IsCaseRef(r)
    ensures |StripRefs(refs)| == |refs| && forall i :: 0 <= i < |refs| ==> StripRefs(refs)[i] == Undated(refs[i])
  {
    if refs != [] {
      CleanRefsStay(refs[..|refs| - 1]);
    }
  }

  lemma {:induction false} StripRefsConcat(xs: seq<Ref>, ys: seq<Ref>)
    ensures StripRefs(xs + ys) == StripRefs(xs) + StripRefs(ys)
  {
    if ys == [] {
      assert xs + ys == xs;
    } else {
      var n := |ys| - 1;
      StripRefsConcat(xs, ys[..n]);
      assert (xs + ys)[..|xs + ys| - 1] == xs + ys[..n];
    }
  }

  lemma StripRefsIdempotent(refs: seq<Ref>)
    ensures StripRefs(StripRefs(refs)) == StripRefs(refs)
  {
    StrippedRefs(refs);
    CleanRefsStay(StripRefs(refs));
  }

  /** Stripping the references of a filled document gives back those of the definition. */
  lemma StripUndoesFill(ctx: Context, caseName: Option<string>, n: nat, refs: seq<Ref>)
    requires StripRefs(refs) == refs
    ensures StripRefs(CaseRefs(ctx, caseName, n) + DateRefs(ctx.today, refs)) == refs
  {
    var first, dated := CaseRefs(ctx, caseName, n), DateRefs(ctx.today, refs);
    StrippedRefs(refs);
    forall r | r in dated ensures !IsCaseRef(r) {
      var i :| 0 <= i < |dated| && dated[i] == r;
      assert refs[i] in StripRefs(refs);
    }
    CleanRefsStay(dated);
    forall i | 0 <= i < |refs| ensures StripRefs(dated)[i] == refs[i] {
      assert refs[i] in StripRefs(refs);
    }
    StripRefsConcat(first, dated);
    assert first != [] ==> first[..0] == [] && first[..|first| - 1] == [];
    assert StripRefs(first) == [];
  }

  // ---------------------------------------------------------------- storing twice is storing once

  lemma StripDocIdempotent(doc: Doc)
    ensures StripDoc(StripDoc(doc)) == StripDoc(doc)
  {
    StripRefsIdempotent(RefsOf(doc));
  }

  lemma {:induction false} StripIdempotent(endpoint: Endpoint, kind: string, p: Payload)
    ensures Strip(endpoint, kind, Strip(endpoint, kind, p)) == Strip(endpoint, kind, p)
    decreases p, 1
  {
    match endpoint
    case Mixed =>
      StripGroupsIdempotent(kind, p.groups);
    case Documents =>
      forall i | 0 <= i < |p.documents| ensures StripDoc(StripDoc(p.documents[i])) == StripDoc(p.documents[i]) {
        StripDocIdempotent(p.documents[i]);
      }
      assert MapSeq(StripDoc, MapSeq(StripDoc, p.documents)) == MapSeq(StripDoc, p.documents);
    case Receipts =>
      assert MapSeq(StripReceipt, MapSeq(StripReceipt, p.receipts)) == MapSeq(StripReceipt, p.receipts);
    case Books =>
    case Other =>
  }

  lemma {:induction false} StripGroupsIdempotent(kind: string, groups: seq<Group>)
    ensures StripGroups(kind, StripGroups(kind, groups)) == StripGroups(kind, groups)
    decreases groups, 0
  {
    if groups != [] {
      var g := groups[0];
      assert g.payload < g;
      StripIdempotent(g.endpoint, kind, g.payload);
      StripGroupsIdempotent(kind, groups[1..]);
      assert StripGroups(kind, groups)[1..] == StripGroups(kind, groups[1..]);
    }
  }

  // ---------------------------------------------------------------- exactly what storing removes

  /** A document with no trace of a taxpayer or of a day. */
  predicate CaseOnly(doc: Doc) {
    && doc.issuer.None? && doc.issueDate.None? && doc.references != Some([])
    && forall r <- RefsOf(doc) :: !IsCaseRef(r) && (r.batchIndex.None? ==> r.date.None?)
  }

  predicate NoSystemData(endpoint: Endpoint, kind: string, p: Payload)
    decreases p, 1
  {
    match endpoint
    case Mixed => NoSystemDataIn(kind, p.groups)
    case Documents => forall d <- p.documents :: CaseOnly(d)
    case Receipts => forall r <- p.receipts :: r.issuer.None? && r.issueDate.None?
    case Books => p.period.None? && p.notificationFolio.None? && (kind in GENERATED_BOOKS ==> p.lines == [])
    case Other => true
  }

  predicate NoSystemDataIn(kind: string, groups: seq<Group>)
    decreases groups, 0
  {
    groups != [] ==> NoSystemDataInGroup(kind, groups[0]) && NoSystemDataIn(kind, groups[1..])
  }

  predicate NoSystemDataInGroup(kind: string, group: Group)
    decreases group, 2
  {
    group.rest == map[] && NoSystemData(group.endpoint, kind, group.payload)
  }

  lemma CaseOnlyExactly(doc: Doc)
    ensures StripDoc(doc) == doc <==> CaseOnly(doc)
  {
    var refs := RefsOf(doc);
    StrippedRefs(refs);
    if CaseOnly(doc) {
      CleanRefsStay(refs);
      assert StripRefs(refs) == refs;
    }
  }

  /** A definition is left as it is exactly when it holds nothing the system puts in, at any depth. */
  lemma {:induction false} StripRemovesExactlySystemData(endpoint: Endpoint, kind: string, p: Payload)
    ensures Strip(endpoint, kind, p) == p <==> NoSystemData(endpoint, kind, p)
    decreases p, 1
  {
    match endpoint
    case Mixed =>
      StripGroupsRemovesExactly(kind, p.groups);
    case Documents =>
      var stripped := MapSeq(StripDoc, p.documents);
      forall i | 0 <= i < |p.documents| ensures stripped[i] == p.documents[i] <==> CaseOnly(p.documents[i]) {
        CaseOnlyExactly(p.documents[i]);
      }
      hide StripDoc, CaseOnly;
      assert stripped == p.documents <==> forall i :: 0 <= i < |p.documents| ==> stripped[i] == p.documents[i];
    case Receipts =>
      var stripped := MapSeq(StripReceipt, p.receipts);
      assert stripped == p.receipts <==> forall i :: 0 <= i < |p.receipts| ==> stripped[i] == p.receipts[i];
    case Books =>
    case Other =>
  }

  lemma {:induction false} StripGroupsRemovesExactly(kind: string, groups: seq<Group>)
    ensures StripGroups(kind, groups) == groups <==> NoSystemDataIn(kind, groups)
    decreases groups, 0
  {
    if groups != [] {
      var g := groups[0];
      assert g.payload < g;
      StripRemovesExactlySystemData(g.endpoint, kind, g.payload);
      StripGroupsRemovesExactly(kind, groups[1..]);
      assert groups == [g] + groups[1..];
    }
  }

  // ---------------------------------------------------------------- issuing reads only the stored form

  /** Two definitions with the same stored form are issued alike. */
  lemma {:induction false} FillIgnoresSystemData(ctx: Context, endpoint: Endpoint, p: Payload, q: Payload)
    requires Strip(endpoint, ctx.kind, p) == Strip(endpoint, ctx.kind, q)
    ensures Fill(ctx, endpoint, p) == Fill(ctx, endpoint, q)
    decreases p, 1
  {
    if endpoint == Mixed {
      FillGroupsIgnoreSystemData(ctx, p.groups, q.groups);
    }
  }

  lemma {:induction false} FillGroupsIgnoreSystemData(ctx: Context, xs: seq<Group>, ys: seq<Group>)
    requires StripGroups(ctx.kind, xs) == StripGroups(ctx.kind, ys)
    ensures FillGroups(ctx, xs) == FillGroups(ctx, ys)
    decreases xs, 0
  {
    assert |xs| == |ys|;
    if xs != [] {
      var g, h := xs[0], ys[0];
      assert g.payload < g;
      assert StripGroups(ctx.kind, xs)[0] == StripGroup(ctx.kind, g) && StripGroups(ctx.kind, ys)[0] == StripGroup(ctx.kind, h);
      FillIgnoresSystemData(ctx, g.endpoint, g.payload, h.payload);
      assert StripGroups(ctx.kind, xs)[1..] == StripGroups(ctx.kind, xs[1..]);
      assert StripGroups(ctx.kind, ys)[1..] == StripGroups(ctx.kind, ys[1..]);
      FillGroupsIgnoreSystemData(ctx, xs[1..], ys[1..]);
    }
  }

  // ---------------------------------------------------------------- issuing twice the same day

  /** The case number is the one the position gives, or the set refers to no case at all. */
  predicate CaseIsPlain(ctx: Context, caseName: Option<string>, n: nat) {
    !RefersToCase(ctx) || caseName == None || caseName == Some("") || caseName == Some(ctx.code + "-" + Text.Decimal(n))
  }

  lemma CaseReasonsAgreeExactly(ctx: Context, caseName: Option<string>, n: nat)
    ensures CaseRefs(ctx, caseName, n) == CaseRefs(ctx, None, n) <==> CaseIsPlain(ctx, caseName, n)
  {
    if RefersToCase(ctx) && caseName.Some? && caseName.value != "" {
      var given, plain := "CASO " + caseName.value, "CASO " + ctx.code + "-" + Text.Decimal(n);
      assert given[5..] == caseName.value && plain[5..] == ctx.code + "-" + Text.Decimal(n);
      assert plain == "CASO " + (ctx.code + "-" + Text.Decimal(n));
      assert CaseRefs(ctx, caseName, n)[0].reason == Some(given) && CaseRefs(ctx, None, n)[0].reason == Some(plain);
    }
  }

  /** The same document, whatever its receiver and transport. */
  predicate SameBut(a: Doc, b: Doc) {
    a.(receiver := None, transport := None) == b.(receiver := None, transport := None)
  }

  /** Filling a filled document again gives it back exactly when its case was the plain one. */
  lemma RefillDoc(ctx: Context, doc: Doc, n: nat, filled: Doc)
    requires StripDoc(doc) == doc && SameBut(filled, FillDoc(ctx, doc, n))
    ensures FillDoc(ctx, StripDoc(filled), n) == filled <==> CaseIsPlain(ctx, doc.caseName, n)
  {
    var refs := RefsOf(doc);
    StripRefsIdempotent(refs);
    StripUndoesFill(ctx, doc.caseName, n, refs);
    CaseReasonsAgreeExactly(ctx, doc.caseName, n);
    assert RefsOf(filled) == CaseRefs(ctx, doc.caseName, n) + DateRefs(ctx.today, refs);
    assert RefsOf(StripDoc(filled)) == refs;
    hide StripRefs, CaseRefs, CaseIsPlain;
    var first, again := CaseRefs(ctx, doc.caseName, n), CaseRefs(ctx, None, n);
    var dated := DateRefs(ctx.today, refs);
    assert (first + dated)[|first|..] == dated;
    if first + dated == again + dated {
      assert |first| == |again|;
      assert (first + dated)[..|first|] == first && (again + dated)[..|first|] == again;
    }
  }

  lemma {:induction false} PassKeepsTheRest(issuer: Issuer, usable: seq<Party>, docs: seq<Doc>, n: nat, i: nat)
    requires n <= |docs| && i < |docs|
    ensures SameBut(VisitFirst(issuer, usable, docs, n).docs[i], docs[i])
  {
    if n > 0 {
      PassKeepsTheRest(issuer, usable, docs, n - 1, i);
    }
  }

  /** All references to documents of the lot are to earlier ones, as the sheet reader writes them. */
  predicate RefersBackward(docs: seq<Doc>) {
    forall i, j :: 0 <= i < |docs| && 0 <= j < |RefsOf(docs[i])| && RefsOf(docs[i])[j].batchIndex.Some? ==>
      RefsOf(docs[i])[j].batchIndex.value <= i
  }

  lemma {:induction false} FirstLotRefIsOneOf(refs: seq<Ref>, limit: nat)
    requires forall r <- refs :: r.batchIndex.Some? ==> r.batchIndex.value <= limit
    ensures FirstLotRef(refs) <= limit
  {
    if refs != [] {
      FirstLotRefIsOneOf(refs[1..], limit);
    }
  }

  lemma {:induction false} StripKeepsTargets(refs: seq<Ref>, limit: nat)
    requires forall r <- refs :: r.batchIndex.Some? ==> r.batchIndex.value <= limit
    ensures forall r <- StripRefs(refs) :: r.batchIndex.Some? ==> r.batchIndex.value <= limit
  {
    if refs != [] {
      StripKeepsTargets(refs[..|refs| - 1], limit);
    }
  }

  lemma FilledLotIsBackward(ctx: Context, docs: seq<Doc>)
    requires RefersBackward(docs)
    ensures Backward(FillDocs(ctx, MapSeq(StripDoc, docs)))
  {
    var filled := FillDocs(ctx, MapSeq(StripDoc, docs));
    forall i: nat | i < |docs| ensures FirstLotRef(RefsOf(filled[i])) <= i {
      var refs := RefsOf(docs[i]);
      forall r | r in refs && r.batchIndex.Some? ensures r.batchIndex.value <= i {
        var j :| 0 <= j < |refs| && refs[j] == r;
      }
      StripKeepsTargets(refs, i);
      assert RefsOf(filled[i]) == CaseRefs(ctx, docs[i].caseName, i + 1) + DateRefs(ctx.today, StripRefs(refs));
      FirstLotRefIsOneOf(RefsOf(filled[i]), i);
    }
  }

  /** A lot filled from its stored form, before and after the pass over receivers. */
  function BeforePass(ctx: Context, docs: seq<Doc>): (r: seq<Doc>)
    ensures |r| == |docs| && forall i :: 0 <= i < |docs| ==> r[i] == FillDoc(ctx, StripDoc(docs[i]), i + 1)
  {
    FillDocs(ctx, MapSeq(StripDoc, docs))
  }

  function AfterPass(ctx: Context, docs: seq<Doc>): (r: seq<Doc>)
    ensures |r| == |docs|
  {
    Receivers(ctx.issuer, ctx.receivers, BeforePass(ctx, docs)).docs
  }

  lemma FillsItsDocuments(ctx: Context, p: Payload)
    ensures Fill(ctx, Documents, p) == p.(documents := AfterPass(ctx, p.documents))
  {
  }

  lemma PassLeavesTheRest(ctx: Context, docs: seq<Doc>, i: nat)
    requires i < |docs|
    ensures SameBut(AfterPass(ctx, docs)[i], BeforePass(ctx, docs)[i])
  {
    PassKeepsTheRest(ctx.issuer, UsableReceivers(ctx.receivers), BeforePass(ctx, docs), |docs|, i);
  }

  lemma RefillOne(ctx: Context, docs: seq<Doc>, i: nat)
    requires i < |docs|
    ensures BeforePass(ctx, AfterPass(ctx, docs))[i] == AfterPass(ctx, docs)[i] <==> CaseIsPlain(ctx, docs[i].caseName, i + 1)
    ensures AfterPass(ctx, AfterPass(ctx, docs))[i] == AfterPass(ctx, docs)[i] ==> CaseIsPlain(ctx, docs[i].caseName, i + 1)
  {
    var done := AfterPass(ctx, docs);
    var again := BeforePass(ctx, done);
    StripDocIdempotent(docs[i]);
    PassLeavesTheRest(ctx, docs, i);
    PassLeavesTheRest(ctx, done, i);
    RefillDoc(ctx, StripDoc(docs[i]), i + 1, done[i]);
    assert again[i].receiver == done[i].receiver && again[i].transport == done[i].transport;
    hide AfterPass, BeforePass, FillDoc, StripDoc, CaseIsPlain;
  }

  lemma PassAgain(ctx: Context, docs: seq<Doc>)
    requires RefersBackward(docs)
    requires BeforePass(ctx, AfterPass(ctx, docs)) == AfterPass(ctx, docs)
    ensures AfterPass(ctx, AfterPass(ctx, docs)) == AfterPass(ctx, docs) <==> HandedAlike(UsableReceivers(ctx.receivers), docs)
  {
    var usable, lot := UsableReceivers(ctx.receivers), BeforePass(ctx, docs);
    FilledLotIsBackward(ctx, docs);
    assert forall i :: 0 <= i < |docs| ==> NeedsCustomer(lot[i]) == NeedsCustomer(docs[i]);
    SameNeedsHandedAlike(usable, lot, docs);
    SecondPassStaysExactly(ctx.issuer, usable, lot);
    assert AfterPass(ctx, docs) == Done(ctx.issuer, usable, lot);
    assert AfterPass(ctx, AfterPass(ctx, docs)) == Done(ctx.issuer, usable, AfterPass(ctx, docs));
  }

  /** No document gives a case number of its own that differs from the one its position gives. */
  ghost predicate CasesArePlain(ctx: Context, docs: seq<Doc>) {
    forall i: nat :: i < |docs| ==> CaseIsPlain(ctx, docs[i].caseName, i + 1)
  }

  /** Issuing a filled lot again the same day issues it unchanged, exactly when no document gives a
      case number of its own that differs from the one its position gives, and each document handed
      the SII as its receiver would be handed it again. */
  lemma RefillIsTheSameExactly(ctx: Context, p: Payload)
    requires RefersBackward(p.documents)
    ensures var filled := Fill(ctx, Documents, p);
            Fill(ctx, Documents, filled) == filled <==>
            CasesArePlain(ctx, p.documents) && HandedAlike(UsableReceivers(ctx.receivers), p.documents)
  {
    var docs := p.documents;
    var done := AfterPass(ctx, docs);
    FillsItsDocuments(ctx, p);
    FillsItsDocuments(ctx, p.(documents := done));
    forall i: nat | i < |docs|
      ensures BeforePass(ctx, done)[i] == done[i] <==> CaseIsPlain(ctx, docs[i].caseName, i + 1)
      ensures AfterPass(ctx, done)[i] == done[i] ==> CaseIsPlain(ctx, docs[i].caseName, i + 1)
    {
      RefillOne(ctx, docs, i);
    }
    hide AfterPass, BeforePass, CaseIsPlain, RefersBackward, UsableReceivers, Fill, HandedAlike;
    if CasesArePlain(ctx, docs) {
      assert BeforePass(ctx, done) == done;
      PassAgain(ctx, docs);
    }
  }

  // ---------------------------------------------------------------- receipts and nested groups

  /** All references to documents of a lot are backward, at any depth; there is no book. */
  ghost predicate LotsAreBackward(endpoint: Endpoint, p: Payload)
    decreases p, 1
  {
    match endpoint
    case Mixed => LotsInAreBackward(p.groups)
    case Documents => RefersBackward(p.documents)
    case Books => false
    case _ => true
  }

  ghost predicate LotsInAreBackward(groups: seq<Group>)
    decreases groups, 0
  {
    groups != [] ==> GroupIsBackward(groups[0]) && LotsInAreBackward(groups[1..])
  }

  ghost predicate GroupIsBackward(group: Group)
    decreases group, 2
  {
    LotsAreBackward(group.endpoint, group.payload)
  }

  /** Every lot is one that issuing again leaves as it is, at any depth. */
  ghost predicate Refillable(ctx: Context, endpoint: Endpoint, p: Payload)
    decreases p, 1
  {
    match endpoint
    case Mixed => RefillableIn(ctx, p.groups)
    case Documents => CasesArePlain(ctx, p.documents) && HandedAlike(UsableReceivers(ctx.receivers), p.documents)
    case _ => true
  }

  ghost predicate RefillableIn(ctx: Context, groups: seq<Group>)
    decreases groups, 0
  {
    groups != [] ==> RefillableGroup(ctx, groups[0]) && RefillableIn(ctx, groups[1..])
  }

  ghost predicate RefillableGroup(ctx: Context, group: Group)
    decreases group, 2
  {
    Refillable(ctx, group.endpoint, group.payload)
  }

  lemma {:induction false} RefillIsTheSame(ctx: Context, endpoint: Endpoint, p: Payload)
    requires LotsAreBackward(endpoint, p)
    ensures Fill(ctx, endpoint, Fill(ctx, endpoint, p)) == Fill(ctx, endpoint, p) <==> Refillable(ctx, endpoint, p)
    decreases p, 1
  {
    match endpoint
    case Mixed =>
      RefillGroups(ctx, p.groups);
    case Documents =>
      RefillIsTheSameExactly(ctx, p);
    case Receipts =>
      var f := (r: Receipt) => FillReceipt(ctx, r);
      var filled := MapSeq(f, MapSeq(StripReceipt, p.receipts));
      assert MapSeq(f, MapSeq(StripReceipt, filled)) == filled;
    case Other =>
  }

  lemma {:induction false} RefillGroups(ctx: Context, groups: seq<Group>)
    requires LotsInAreBackward(groups)
    ensures FillGroups(ctx, FillGroups(ctx, groups)) == FillGroups(ctx, groups) <==> RefillableIn(ctx, groups)
    decreases groups, 0
  {
    if groups != [] {
      var g := groups[0];
      assert g.payload < g;
      RefillIsTheSame(ctx, g.endpoint, g.payload);
      RefillGroups(ctx, groups[1..]);
      var filled := FillGroups(ctx, groups);
      assert filled[1..] == FillGroups(ctx, groups[1..]);
      assert FillGroups(ctx, filled)[1..] == FillGroups(ctx, filled[1..]);
      assert filled[0] == FillGroup(ctx, g);
      assert FillGroup(ctx, g).payload == Fill(ctx, g.endpoint, g.payload);
      assert FillGroups(ctx, filled)[0] == FillGroup(ctx, filled[0]);
      assert FillGroup(ctx, filled[0]).payload == Fill(ctx, g.endpoint, Fill(ctx, g.endpoint, g.payload));
    }
  }

  // ---------------------------------------------------------------- what a filled lot carries

  lemma FilledRefs(ctx: Context, docs: seq<Doc>, i: nat)
    requires i < |docs|
    ensures var refs := StripRefs(RefsOf(docs[i]));
            && RefsOf(AfterPass(ctx, docs)[i]) == CaseRefs(ctx, docs[i].caseName, i + 1) + DateRefs(ctx.today, refs)
            && StripRefs(RefsOf(AfterPass(ctx, docs)[i])) == refs
  {
    PassLeavesTheRest(ctx, docs, i);
    StripRefsIdempotent(RefsOf(docs[i]));
    StripUndoesFill(ctx, docs[i].caseName, i + 1, StripRefs(RefsOf(docs[i])));
    hide AfterPass, StripRefs;
  }

  /** Every document of a filled lot is the taxpayer's, of the day, and otherwise as defined. */
  lemma FilledDocumentsAreOfTheDay(ctx: Context, p: Payload, i: nat)
    requires i < |p.documents|
    ensures var filled := Fill(ctx, Documents, p).documents;
            && |filled| == |p.documents|
            && filled[i].issuer == Some(ctx.issuer) && filled[i].issueDate == Some(ctx.today) && filled[i].caseName == None
            && filled[i].rest == p.documents[i].rest && filled[i].docType == p.documents[i].docType
            && filled[i].transferType == p.documents[i].transferType
  {
    FillsItsDocuments(ctx, p);
    PassLeavesTheRest(ctx, p.documents, i);
    hide AfterPass, Fill;
  }

  /** It names its case first unless the set has none, dates its outside references, and keeps
      every reference of the definition. */
  lemma FilledReferencesAreComplete(ctx: Context, p: Payload, i: nat)
    requires i < |p.documents|
    ensures |Fill(ctx, Documents, p).documents| == |p.documents|
    ensures var refs, given := RefsOf(Fill(ctx, Documents, p).documents[i]), RefsOf(p.documents[i]);
            && (RefersToCase(ctx) ==> refs != [] && IsCaseRef(refs[0])
                                      && refs[0].reason == Some(CaseReason(ctx, p.documents[i].caseName, i + 1)))
            && (forall r <- refs :: r.batchIndex.None? ==> r.date == Some(ctx.today))
            && StripRefs(refs) == StripRefs(given)
  {
    FillsItsDocuments(ctx, p);
    FilledRefs(ctx, p.documents, i);
    hide AfterPass, StripRefs, Fill;
  }

  /** In a lot read from the SII's sheet every note without a receiver of its own is issued to the
      receiver of the document its chain starts from. */
  lemma FilledNotesInherit(ctx: Context, p: Payload, i: nat)
    requires RefersBackward(p.documents) && i < |p.documents|
    ensures Backward(BeforePass(ctx, p.documents)) && |Fill(ctx, Documents, p).documents| == |p.documents|
    ensures var filled, root := Fill(ctx, Documents, p).documents, Root(BeforePass(ctx, p.documents), i);
            root <= i && ReceiverOf(filled[i]) == ReceiverOf(filled[root])
  {
    FillsItsDocuments(ctx, p);
    FilledLotIsBackward(ctx, p.documents);
    OnePassSuffices(ctx.issuer, UsableReceivers(ctx.receivers), BeforePass(ctx, p.documents), i);
  }

  // ---------------------------------------------------------------- the month of a generated book

  lemma {:induction false} LatestMonthIsLatest(lines: seq<Line>)
    ensures LatestMonth(lines).None? <==> forall l <- lines :: !HasDate(l)
    ensures LatestMonth(lines).Some? ==>
              && (exists l <- lines :: HasDate(l) && MonthOf(l.date.value) == LatestMonth(lines).value)
              && forall l <- lines :: HasDate(l) ==> Text.LexLeq(MonthOf(l.date.value), LatestMonth(lines).value)
  {
    hide MonthOf, Text.LexLeq;
    if lines != [] {
      var start, last := lines[..|lines| - 1], lines[|lines| - 1];
      LatestMonthIsLatest(start);
      assert lines == start + [last];
      if HasDate(last) {
        var month, before := MonthOf(last.date.value), LatestMonth(start);
        Text.LexTotal(month, month);
        if before.Some? {
          Text.LexTotal(month, before.value);
          if !Text.LexLeq(month, before.value) {
            forall l | l in start && HasDate(l) ensures Text.LexLeq(MonthOf(l.date.value), month) {
              Text.LexTransitive(MonthOf(l.date.value), before.value, month);
            }
          }
        }
      }
    }
  }

  // ---------------------------------------------------------------- what a filled book holds

  /** The line is of that month. */
  predicate IsOfMonth(line: Line, month: string) {
    HasDate(line) && month == if |line.date.value| <= 7 then line.date.value else line.date.value[..7]
  }

  /** A generated book holds the lines drawn for the cases it voids, and is of the latest month among
      their dates, the current one only when none is dated. */
  lemma GeneratedBooksAreOfTheirLines(ctx: Context, p: Payload)
    requires ctx.kind in GENERATED_BOOKS
    ensures var book := Fill(ctx, Books, p);
            && book.lines == ctx.bookLines(p.voidedCases) && book.period.Some?
            && ((forall l <- book.lines :: !HasDate(l)) ==> book.period == Some(ctx.month))
            && ((exists l <- book.lines :: HasDate(l)) ==>
                  && (exists l <- book.lines :: IsOfMonth(l, book.period.value))
                  && forall l <- book.lines, month :: IsOfMonth(l, month) ==> Text.LexLeq(month, book.period.value))
  {
    var lines := ctx.bookLines(p.voidedCases);
    LatestMonthIsLatest(lines);
    hide LatestMonth, Text.LexLeq;
    assert forall l <- lines :: HasDate(l) ==> IsOfMonth(l, MonthOf(l.date.value));
  }

  /** Any other book is of the current month and keeps its lines, each with the date it had or, when it had
      none, the day's. */
  lemma OtherBooksKeepTheirLines(ctx: Context, p: Payload)
    requires ctx.kind !in GENERATED_BOOKS
    ensures var book := Fill(ctx, Books, p);
            && book.period == Some(ctx.month) && |book.lines| == |p.lines|
            && forall i :: 0 <= i < |p.lines| ==>
                 && book.lines[i].rest == p.lines[i].rest
                 && book.lines[i].date == if p.lines[i].date.Some? then p.lines[i].date else Some(ctx.today)
  {
  }

  /** Every book is notified under the number of its set when that is one, and under none otherwise; it
      carries no cases to void, and the rest of its definition as it came. */
  lemma FilledBooksAreNotified(ctx: Context, p: Payload)
    ensures var book := Fill(ctx, Books, p);
            && book.notificationFolio == (if ctx.codeIsNumeral then Some(ctx.code) else None)
            && book.voidedCases == None
            && book.rest == p.rest && book.documents == p.documents && book.receipts == p.receipts && book.groups == p.groups
  {
  }

  /** A filled receipt is the taxpayer's and of the day, and otherwise as it came. */
  lemma FilledReceiptsAreOfTheDay(ctx: Context, p: Payload)
    ensures var filled := Fill(ctx, Receipts, p);
            && |filled.receipts| == |p.receipts|
            && (forall i :: 0 <= i < |p.receipts| ==>
                  filled.receipts[i] == Receipt(Some(ctx.issuer), Some(ctx.today), p.receipts[i].rest))
            && filled == p.(receipts := filled.receipts)
  {
  }
}
