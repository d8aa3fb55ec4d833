/**
 What a stored and a filled definition hold, part by part, in the terms of the SII's instructions.
 */
module SetFillAnswers {
  import opened Wrappers
  import opened SetFill
  import opened SetReceivers
  import opened SetFillLaws
  import Text

  // ---------------------------------------------------------------- a stored definition

  /** A reference of the definition is kept unless it names the case; an outside one without its date.
      With `StripRefsConcat` this says what becomes of any list of references. */
  lemma OneRefStripped(r: Ref)
    ensures StripRefs([]) == []
    ensures StripRefs([r]) ==
              if r.docType == Some("SET") then []
              else if r.batchIndex == None then [Ref(r.docType, None, None, r.folio, r.reason, r.code)]
              else [r]
  {
    assert [r][..0] == [];
  }

  /** A stored document has neither issuer nor day; its references are the ones kept, if any; nothing else
      is touched. */
  lemma StoredDocument(doc: Doc)
    ensures var stored := StripDoc(doc);
            && stored.issuer == None && stored.issueDate == None
            && RefsOf(stored) == StripRefs(RefsOf(doc)) && stored.references != Some([])
            && stored == doc.(issuer := None, issueDate := None, references := stored.references)
  {
    hide StripRefs;
  }

  /** Storing touches the documents of a lot, the receipts, the period, the notification number and, when
      they are generated, the lines of a book, the groups of a mixed definition, each in its place; a
      group keeps its endpoint and its definition. */
  lemma StoredExactly(endpoint: Endpoint, kind: string, p: Payload)
    ensures var stored := Strip(endpoint, kind, p);
            && (endpoint == Documents ==>
                  && |stored.documents| == |p.documents| && stored == p.(documents := stored.documents)
                  && forall i :: 0 <= i < |p.documents| ==> stored.documents[i] == StripDoc(p.documents[i]))
            && (endpoint == Receipts ==>
                  && |stored.receipts| == |p.receipts| && stored == p.(receipts := stored.receipts)
                  && forall i :: 0 <= i < |p.receipts| ==> stored.receipts[i] == Receipt(None, None, p.receipts[i].rest))
            && (endpoint == Books ==>
                  && stored.period == None && stored.notificationFolio == None
                  && stored.lines == (if kind == "libro_ventas" || kind == "libro_guias" then [] else p.lines)
                  && stored == p.(period := None, notificationFolio := None, lines := stored.lines))
            && (endpoint == Mixed ==>
                  && |stored.groups| == |p.groups| && stored == p.(groups := stored.groups)
                  && forall i :: 0 <= i < |p.groups| ==>
                       stored.groups[i] == Group(p.groups[i].endpoint, Strip(p.groups[i].endpoint, kind, p.groups[i].payload), map[]))
            && (endpoint == Other ==> stored == p)
  {
    if endpoint == Mixed {
      GroupsStripped(kind, p.groups);
    }
    hide StripDoc;
  }

  lemma {:induction false} GroupsStripped(kind: string, groups: seq<Group>)
    ensures forall i :: 0 <= i < |groups| ==>
              StripGroups(kind, groups)[i] == Group(groups[i].endpoint, Strip(groups[i].endpoint, kind, groups[i].payload), map[])
  {
    hide Strip;
    if groups != [] {
      GroupsStripped(kind, groups[1..]);
    }
  }

  // ---------------------------------------------------------------- a filled definition

  /** Each group of a mixed definition is filled as a definition of its own; nothing else is issued. */
  lemma FilledGroups(ctx: Context, p: Payload)
    ensures var filled := Fill(ctx, Mixed, p);
            && |filled.groups| == |p.groups| && filled == Payload([], [], filled.groups, [], None, None, None, map[])
            && forall i :: 0 <= i < |p.groups| ==>
                 filled.groups[i] == Group(p.groups[i].endpoint, Fill(ctx, p.groups[i].endpoint, p.groups[i].payload), map[])
  {
    GroupsFilled(ctx, p.groups);
  }

  lemma {:induction false} GroupsFilled(ctx: Context, groups: seq<Group>)
    ensures forall i :: 0 <= i < |groups| ==>
              FillGroups(ctx, groups)[i] == Group(groups[i].endpoint, Fill(ctx, groups[i].endpoint, groups[i].payload), map[])
  {
    hide Fill;
    if groups != [] {
      GroupsFilled(ctx, groups[1..]);
    }
  }

  /** Filling a lot touches only its documents. */
  lemma FilledLot(ctx: Context, p: Payload)
    ensures var filled := Fill(ctx, Documents, p);
            |filled.documents| == |p.documents| && filled == p.(documents := filled.documents)
    ensures Fill(ctx, Other, p) == p
  {
    FillsItsDocuments(ctx, p);
    hide AfterPass;
  }

  /** What a reference to the case is called, and what it holds: under the type SET, the folio 0 and the day,
      by the name the definition gives the case or the one the set and the position make up. The
      simulation refers to none. */
  lemma CaseRefExactly(ctx: Context, caseName: Option<string>, n: nat)
    ensures var reason := if caseName != None && caseName != Some("") then "CASO " + caseName.value
                          else "CASO " + ctx.code + "-" + Text.Decimal(n);
            CaseRefs(ctx, caseName, n) ==
            if ctx.kind == "simulacion" then []
            else [Ref(Some("SET"), None, Some(ctx.today), Some("0"), Some(reason), None)]
  {
  }

  /** Document `i` refers first to its case, and then to what was stored, the outside documents under the
      day. */
  lemma FilledReferencesExactly(ctx: Context, p: Payload, i: nat)
    requires i < |p.documents|
    ensures |Fill(ctx, Documents, p).documents| == |p.documents|
    ensures var refs, stored := RefsOf(Fill(ctx, Documents, p).documents[i]), StripRefs(RefsOf(p.documents[i]));
            var first := CaseRefs(ctx, p.documents[i].caseName, i + 1);
            && |refs| == |first| + |stored| && refs[..|first|] == first
            && forall k :: 0 <= k < |stored| ==>
                 refs[|first| + k] == if stored[k].batchIndex == None then stored[k].(date := Some(ctx.today)) else stored[k]
  {
    hide *;
    FillsItsDocuments(ctx, p);
    FilledRefs(ctx, p.documents, i);
    AppendedDated(ctx.today, CaseRefs(ctx, p.documents[i].caseName, i + 1), StripRefs(RefsOf(p.documents[i])));
  }

  lemma AppendedDated(today: string, first: seq<Ref>, stored: seq<Ref>)
    ensures var refs := first + DateRefs(today, stored);
            && |refs| == |first| + |stored| && refs[..|first|] == first
            && forall k :: 0 <= k < |stored| ==>
                 refs[|first| + k] == if stored[k].batchIndex == None then stored[k].(date := Some(today)) else stored[k]
  {
  }

  // ---------------------------------------------------------------- receivers

  /** The test receivers that can be used are those with a RUT, in their order. With `UsableConcat` this
      says which of any list they are. */
  lemma OneReceiverUsable(party: Party)
    ensures UsableReceivers([]) == []
    ensures UsableReceivers([party]) == if party.rut == None || party.rut == Some("") then [] else [party]
  {
    assert [party][..0] == [];
  }

  lemma {:induction false} UsableConcat(xs: seq<Party>, ys: seq<Party>)
    ensures UsableReceivers(xs + ys) == UsableReceivers(xs) + UsableReceivers(ys)
  {
    if ys == [] {
      assert xs + ys == xs;
    } else {
      var start, last, all := ys[..|ys| - 1], ys[|ys| - 1], xs + ys;
      UsableConcat(xs, start);
      assert all[..|all| - 1] == xs + start && all[|all| - 1] == last;
      var added := if HasRut(last) then [last] else [];
      assert UsableReceivers(all) == UsableReceivers(xs + start) + added;
      assert UsableReceivers(ys) == UsableReceivers(start) + added;
      hide UsableReceivers, HasRut;
    }
  }

  /** The target of a note is the document its first reference inside the lot names; a zero names none. */
  predicate IsTarget(refs: seq<Ref>, k: nat, target: int) {
    && k < |refs| && target != 0 && refs[k].batchIndex == Some(target)
    && forall j :: 0 <= j < k ==> refs[j].batchIndex == None || refs[j].batchIndex == Some(0)
  }

  lemma {:induction false} FirstLotRefExactly(refs: seq<Ref>, k: nat, target: int)
    ensures IsTarget(refs, k, target) ==> FirstLotRef(refs) == target
    ensures FirstLotRef(refs) == 0 ==> !IsTarget(refs, k, target)
  {
    if IsTarget(refs, k, target) && k > 0 {
      assert refs[0].batchIndex == None || refs[0].batchIndex == Some(0);
      assert IsTarget(refs[1..], k - 1, target);
      FirstLotRefExactly(refs[1..], k - 1, target);
    }
  }

  /** No receiver, one without a RUT, or the SII's. */
  predicate NoReceiver(doc: Doc) {
    doc.receiver == None || doc.receiver.value.rut == None || doc.receiver.value.rut == Some("60803000-K")
  }

  predicate Transfer(doc: Doc) {
    doc.docType == 52 && doc.transferType == Some(5)
  }

  /** An invoice, exempt or not, or a guide that is no internal transfer, without a receiver. */
  predicate Needs(doc: Doc) {
    (doc.docType == 33 || doc.docType == 34 || doc.docType == 52) && !Transfer(doc) && NoReceiver(doc)
  }

  function NeedersBefore(docs: seq<Doc>, i: nat): set<nat>
    requires i <= |docs|
  {
    set j: nat | j < i && Needs(docs[j])
  }

  lemma KindsOfDocument(doc: Doc)
    ensures IsInternalTransfer(doc) <==> Transfer(doc)
    ensures NeedsCustomer(doc) <==> Needs(doc)
    ensures Inherits(doc) <==> (doc.docType == 56 || doc.docType == 61) && NoReceiver(doc)
    ensures Transfer(doc) || Needs(doc) ==> !Inherits(doc)
  {
  }

  lemma {:induction false} NeededExactly(docs: seq<Doc>, i: nat)
    requires i <= |docs|
    ensures NeededIn(docs, i) == |NeedersBefore(docs, i)|
  {
    if i == 0 {
      assert NeedersBefore(docs, 0) == {};
    } else {
      NeededExactly(docs, i - 1);
      KindsOfDocument(docs[i - 1]);
      hide Needs;
      assert NeedersBefore(docs, i) == NeedersBefore(docs, i - 1) + if Needs(docs[i - 1]) then {i - 1} else {};
    }
  }

  /** What a document is given, in terms of what its target and those before it have: an internal transfer
      goes to the issuer, with the issuer's own warehouse unless it says where; the others that need one
      get the test receivers in turn; a note without a receiver gets that of its target; nothing else
      changes. */
  function Given(issuer: Issuer, usable: seq<Party>, docs: seq<Doc>, i: nat, doc: Doc, target: Option<Doc>): Doc
    requires i <= |docs|
  {
    if Transfer(doc) then
      doc.(receiver := Some(IssuerAsReceiver(issuer)),
           transport := if doc.transport.Some? then doc.transport else Some(OwnWarehouse(issuer)))
    else if Needs(doc) && usable != [] then doc.(receiver := Some(usable[|NeedersBefore(docs, i)| % |usable|]))
    else if (doc.docType == 56 || doc.docType == 61) && NoReceiver(doc) && target.Some? then
      doc.(receiver := Some(ReceiverOf(target.value)))
    else doc
  }

  /** Document `target`, from 1, as the pass finds it at document `i`: finished if it comes before. */
  function Found(docs: seq<Doc>, done: seq<Doc>, i: nat, target: int): Option<Doc>
    requires i < |docs| == |done|
  {
    if 0 < target <= i then Some(done[target - 1])
    else if 0 < target <= |docs| then Some(docs[target - 1])
    else None
  }

  lemma VisitGives(issuer: Issuer, usable: seq<Party>, docs: seq<Doc>, s: Pass, i: nat)
    requires i < |docs| == |s.docs| && s.next == (if usable == [] then 0 else NeededIn(docs, i)) && s.docs[i] == docs[i]
    ensures var target := FirstLotRef(RefsOf(docs[i]));
            Visit(issuer, usable, s, i).docs[i] ==
            Given(issuer, usable, docs, i, docs[i], if 0 < target <= |docs| then Some(s.docs[target - 1]) else None)
  {
    NeededExactly(docs, i);
    KindsOfDocument(docs[i]);
    hide IsInternalTransfer, NeedsCustomer, Inherits, Needs, Transfer, NoReceiver, FirstLotRef, NeededIn, NeedersBefore,
      IssuerAsReceiver, OwnWarehouse;
  }

  /** Every document of a finished lot is given what it should, whichever way its notes refer. */
  lemma PassGives(issuer: Issuer, usable: seq<Party>, docs: seq<Doc>, i: nat)
    requires i < |docs|
    ensures var done := VisitFirst(issuer, usable, docs, |docs|).docs;
            done[i] == Given(issuer, usable, docs, i, docs[i], Found(docs, done, i, FirstLotRef(RefsOf(docs[i]))))
  {
    var s, done := VisitFirst(issuer, usable, docs, i), VisitFirst(issuer, usable, docs, |docs|).docs;
    var target := FirstLotRef(RefsOf(docs[i]));
    UnvisitedStay(issuer, usable, docs, i, i);
    VisitedStay(issuer, usable, docs, |docs|, i);
    PassCounts(issuer, usable, docs, i);
    assert VisitFirst(issuer, usable, docs, i + 1) == Visit(issuer, usable, s, i);
    hide VisitFirst, Visit, Given, FirstLotRef;
    if 0 < target <= i {
      VisitedStay(issuer, usable, docs, i, target - 1);
      VisitedStay(issuer, usable, docs, |docs|, target - 1);
    } else if i < target <= |docs| {
      UnvisitedStay(issuer, usable, docs, i, target - 1);
    }
    VisitGives(issuer, usable, docs, s, i);
  }

  function First(s: string, n: nat): string {
    if |s| <= n then s else s[..n]
  }

  /** The receiver of an internal transfer is the issuer, its activity cut to forty characters, and the
      destination that is made up is its second warehouse, cut to seventy. */
  lemma TransfersGoToTheIssuer(issuer: Issuer)
    ensures IssuerAsReceiver(issuer) ==
            Party(Some(issuer.rut), issuer.businessName, First(issuer.activity, 40), issuer.address, issuer.commune, issuer.city, map[])
    ensures OwnWarehouse(issuer) == Transport(First("BODEGA 2, " + issuer.address, 70), issuer.commune, map[])
  {
  }

  lemma NeedsAlike(ctx: Context, docs: seq<Doc>, i: nat)
    requires i < |docs|
    ensures var before := BeforePass(ctx, docs);
            && before[i].docType == docs[i].docType && before[i].receiver == docs[i].receiver && before[i].transport == docs[i].transport
            && (Transfer(before[i]) <==> Transfer(docs[i])) && (Needs(before[i]) <==> Needs(docs[i]))
            && (NoReceiver(before[i]) <==> NoReceiver(docs[i]))
            && NeedersBefore(before, i) == NeedersBefore(docs, i)
            && FirstLotRef(RefsOf(before[i])) == FirstLotRef(StripRefs(RefsOf(docs[i])))
  {
    var before := BeforePass(ctx, docs);
    forall j | 0 <= j < |docs| ensures Needs(before[j]) <==> Needs(docs[j]) {
    }
    var refs := StripRefs(RefsOf(docs[i]));
    assert RefsOf(before[i]) == CaseRefs(ctx, docs[i].caseName, i + 1) + DateRefs(ctx.today, refs);
    SkipsTheCase(ctx, docs[i].caseName, i + 1, refs);
    hide StripRefs, CaseRefs, FirstLotRef, Needs, BeforePass;
  }

  lemma {:induction false} DatesChangeNoTarget(today: string, refs: seq<Ref>)
    ensures FirstLotRef(DateRefs(today, refs)) == FirstLotRef(refs)
  {
    if refs != [] {
      DatesChangeNoTarget(today, refs[1..]);
      assert DateRefs(today, refs)[1..] == DateRefs(today, refs[1..]);
    }
  }

  lemma SkipsTheCase(ctx: Context, caseName: Option<string>, n: nat, refs: seq<Ref>)
    ensures FirstLotRef(CaseRefs(ctx, caseName, n) + DateRefs(ctx.today, refs)) == FirstLotRef(refs)
  {
    DatesChangeNoTarget(ctx.today, refs);
    var first, dated := CaseRefs(ctx, caseName, n), DateRefs(ctx.today, refs);
    if first == [] {
      assert first + dated == dated;
    } else {
      assert (first + dated)[1..] == dated;
    }
  }

  /** The receiver and the transport of every document of a filled lot, in terms of its definition. */
  lemma FilledReceiversExactly(ctx: Context, p: Payload, i: nat)
    requires i < |p.documents|
    ensures |Fill(ctx, Documents, p).documents| == |p.documents|
    ensures var filled, docs, usable := Fill(ctx, Documents, p).documents, p.documents, UsableReceivers(ctx.receivers);
            var given := Given(ctx.issuer, usable, docs, i, docs[i], Found(docs, filled, i, FirstLotRef(StripRefs(RefsOf(docs[i])))));
            filled[i].receiver == given.receiver && filled[i].transport == given.transport
  {
    hide *;
    FillsItsDocuments(ctx, p);
    var docs, filled, target := p.documents, AfterPass(ctx, p.documents), FirstLotRef(StripRefs(RefsOf(p.documents[i])));
    var before, usable := BeforePass(ctx, p.documents), UsableReceivers(ctx.receivers);
    NeedsAlike(ctx, docs, i);
    if i < target <= |docs| {
      NeedsAlike(ctx, docs, target - 1);
    }
    PassGives(ctx.issuer, usable, before, i);
    AfterPassIs(ctx, docs);
    FoundAlike(docs, before, filled, i, target);
    GivenAlike(ctx.issuer, usable, docs, before, i, Found(docs, filled, i, target), Found(before, filled, i, target));
  }

  lemma AfterPassIs(ctx: Context, docs: seq<Doc>)
    ensures AfterPass(ctx, docs) ==
            VisitFirst(ctx.issuer, UsableReceivers(ctx.receivers), BeforePass(ctx, docs), |BeforePass(ctx, docs)|).docs
  {
    hide VisitFirst, UsableReceivers, BeforePass;
  }

  lemma FoundAlike(xs: seq<Doc>, ys: seq<Doc>, done: seq<Doc>, i: nat, target: int)
    requires i < |xs| == |ys| == |done| && (i < target <= |xs| ==> xs[target - 1].receiver == ys[target - 1].receiver)
    ensures var a, b := Found(xs, done, i, target), Found(ys, done, i, target);
            a.Some? == b.Some? && (a.Some? ==> a.value.receiver == b.value.receiver)
  {
  }

  lemma GivenAlike(
      issuer: Issuer, usable: seq<Party>, xs: seq<Doc>, ys: seq<Doc>, i: nat, target: Option<Doc>, other: Option<Doc>)
    requires i < |xs| == |ys| && NeedersBefore(xs, i) == NeedersBefore(ys, i)
    requires Transfer(xs[i]) == Transfer(ys[i]) && Needs(xs[i]) == Needs(ys[i]) && NoReceiver(xs[i]) == NoReceiver(ys[i])
    requires xs[i].docType == ys[i].docType && xs[i].receiver == ys[i].receiver && xs[i].transport == ys[i].transport
    requires target.Some? == other.Some? && (target.Some? ==> target.value.receiver == other.value.receiver)
    ensures var a, b := Given(issuer, usable, xs, i, xs[i], target), Given(issuer, usable, ys, i, ys[i], other);
            a.receiver == b.receiver && a.transport == b.transport
  {
    hide NeedersBefore, Transfer, Needs, NoReceiver, IssuerAsReceiver, OwnWarehouse;
  }
}
