/**
 The loops that strip and fill a definition in place, each against the function that says what it
 leaves.
 */
module SetFillService {
  import opened Wrappers
  import opened SetFill

  /** The references a stored definition keeps. */
  method KeepCaseReferences(refs: seq<Ref>) returns (kept: seq<Ref>)
    ensures kept == StripRefs(refs)
  {
    kept := [];
    for i := 0 to |refs|
      invariant kept == StripRefs(refs[..i])
    {
      assert refs[..i + 1][..i] == refs[..i];
      if IsCaseRef(refs[i]) {
        continue;
      }
      kept := kept + [if refs[i].batchIndex.None? then refs[i].(date := None) else refs[i]];
    }
    assert refs[..|refs|] == refs;
  }

  /** Removes from a definition everything the system puts in. */
  method StripDefinition(endpoint: Endpoint, kind: string, p: Payload) returns (stripped: Payload)
    ensures stripped == Strip(endpoint, kind, p)
    decreases p
  {
    stripped := p;
    match endpoint {
      case Mixed =>
        var groups := [];
        for i := 0 to |p.groups|
          invariant groups == StripGroups(kind, p.groups[..i])
        {
          assert p.groups[i] in p.groups && p.groups[i].payload < p.groups[i];
          var body := StripDefinition(p.groups[i].endpoint, kind, p.groups[i].payload);
          StripOneMoreGroup(kind, p.groups, i);
          groups := groups + [Group(p.groups[i].endpoint, body, map[])];
        }
        assert p.groups[..|p.groups|] == p.groups;
        stripped := p.(groups := groups);
      case Documents =>
        for i := 0 to |p.documents|
          invariant |stripped.documents| == |p.documents| && stripped == p.(documents := stripped.documents)
          invariant forall j :: 0 <= j < |p.documents| ==>
                      stripped.documents[j] == if j < i then StripDoc(p.documents[j]) else p.documents[j]
        {
          var doc := p.documents[i];
          var refs := KeepCaseReferences(RefsOf(doc));
          doc := doc.(issuer := None, issueDate := None, references := if refs != [] then Some(refs) else None);
          stripped := stripped.(documents := stripped.documents[i := doc]);
        }
        assert stripped.documents == MapSeq(StripDoc, p.documents);
      case Receipts =>
        for i := 0 to |p.receipts|
          invariant |stripped.receipts| == |p.receipts| && stripped == p.(receipts := stripped.receipts)
          invariant forall j :: 0 <= j < |p.receipts| ==>
                      stripped.receipts[j] == if j < i then StripReceipt(p.receipts[j]) else p.receipts[j]
        {
          var receipt := p.receipts[i].(issuer := None, issueDate := None);
          stripped := stripped.(receipts := stripped.receipts[i := receipt]);
        }
        assert stripped.receipts == MapSeq(StripReceipt, p.receipts);
      case Books =>
        stripped := stripped.(period := None, notificationFolio := None);
        if kind in GENERATED_BOOKS {
          stripped := stripped.(lines := []);
        }
      case Other =>
    }
  }

  lemma {:induction false} StripOneMoreGroup(kind: string, groups: seq<Group>, i: nat)
    requires i < |groups|
    ensures StripGroups(kind, groups[..i + 1]) == StripGroups(kind, groups[..i]) + [StripGroup(kind, groups[i])]
    decreases i
  {
    hide StripGroup;
    if i == 0 {
      assert groups[..1] == [groups[0]] && groups[..1][1..] == [] && groups[..0] == [];
    } else {
      StripOneMoreGroup(kind, groups[1..], i - 1);
      assert groups[..i + 1][1..] == groups[1..][..i] && groups[..i][1..] == groups[1..][..i - 1];
    }
  }

  /** Gives every document of a lot its receiver, in place, in one pass. */
  method AssignReceivers(issuer: Issuer, receivers: seq<Party>, docs: array<Doc>) returns (needed: nat)
    modifies docs
    ensures var pass := Receivers(issuer, receivers, old(docs[..])); docs[..] == pass.docs && needed == pass.needed
  {
    hide IssuerAsReceiver, OwnWarehouse, FirstLotRef;
    var usable := UsableReceivers(receivers);
    ghost var start := docs[..];
    needed := 0;
    var next := 0;
    for i := 0 to docs.Length
      invariant VisitFirst(issuer, usable, start, i) == Pass(docs[..], needed, next)
    {
      assert VisitFirst(issuer, usable, start, i + 1) == Visit(issuer, usable, Pass(docs[..], needed, next), i);
      var doc := docs[i];
      if IsInternalTransfer(doc) {
        doc := doc.(receiver := Some(IssuerAsReceiver(issuer)));
        if doc.transport.None? {
          doc := doc.(transport := Some(OwnWarehouse(issuer)));
        }
        docs[i] := doc;
      } else if NeedsCustomer(doc) {
        needed := needed + 1;
        if usable != [] {
          docs[i] := doc.(receiver := Some(usable[next % |usable|]));
          next := next + 1;
        }
      } else if Inherits(doc) {
        var target := FirstLotRef(RefsOf(doc));
        if 0 < target <= docs.Length {
          docs[i] := doc.(receiver := Some(ReceiverOf(docs[target - 1])));
        }
      }
    }
  }

  /** One document of a stripped lot, complete but for its receiver. */
  method CompleteDocument(ctx: Context, doc: Doc, n: nat) returns (filled: Doc)
    ensures filled == FillDoc(ctx, doc, n)
  {
    filled := doc.(issuer := Some(ctx.issuer), issueDate := Some(ctx.today), caseName := None);
    var refs := CaseRefs(ctx, doc.caseName, n);
    ghost var first := refs;
    var given := RefsOf(doc);
    for i := 0 to |given|
      invariant refs == first + DateRefs(ctx.today, given[..i])
    {
      assert DateRefs(ctx.today, given[..i + 1]) == DateRefs(ctx.today, given[..i]) + [Dated(ctx.today, given[i])];
      refs := refs + [if given[i].batchIndex.None? then given[i].(date := Some(ctx.today)) else given[i]];
    }
    assert given[..|given|] == given;
    filled := filled.(references := Some(refs));
  }

  /** The complete definition, ready to issue. */
  method FillDefinition(ctx: Context, endpoint: Endpoint, p: Payload) returns (filled: Payload)
    ensures filled == Fill(ctx, endpoint, p)
    decreases p
  {
    if endpoint == Mixed {
      var groups := [];
      for i := 0 to |p.groups|
        invariant groups == FillGroups(ctx, p.groups[..i])
      {
        assert p.groups[i] in p.groups && p.groups[i].payload < p.groups[i];
        var body := FillDefinition(ctx, p.groups[i].endpoint, p.groups[i].payload);
        FillOneMoreGroup(ctx, p.groups, i);
        groups := groups + [Group(p.groups[i].endpoint, body, map[])];
      }
      assert p.groups[..|p.groups|] == p.groups;
      return EMPTY.(groups := groups);
    }
    filled := StripDefinition(endpoint, ctx.kind, p);
    if endpoint == Documents {
      var docs := FillDocuments(ctx, filled.documents);
      filled := filled.(documents := docs);
    } else if endpoint == Receipts {
      filled := filled.(receipts := MapSeq((r: Receipt) => FillReceipt(ctx, r), filled.receipts));
    } else if endpoint == Books {
      filled := FillBook(ctx, filled);
    }
  }

  method FillDocuments(ctx: Context, stripped: seq<Doc>) returns (docs: seq<Doc>)
    ensures docs == Receivers(ctx.issuer, ctx.receivers, FillDocs(ctx, stripped)).docs
  {
    var lot := new Doc[|stripped|](i requires 0 <= i < |stripped| => stripped[i]);
    for i := 0 to |stripped|
      invariant forall j :: 0 <= j < |stripped| ==>
                  lot[j] == if j < i then FillDoc(ctx, stripped[j], j + 1) else stripped[j]
    {
      lot[i] := CompleteDocument(ctx, lot[i], i + 1);
    }
    assert lot[..] == FillDocs(ctx, stripped);
    var _ := AssignReceivers(ctx.issuer, ctx.receivers, lot);
    docs := lot[..];
  }

  lemma {:induction false} FillOneMoreGroup(ctx: Context, groups: seq<Group>, i: nat)
    requires i < |groups|
    ensures FillGroups(ctx, groups[..i + 1]) == FillGroups(ctx, groups[..i]) + [FillGroup(ctx, groups[i])]
    decreases i
  {
    hide FillGroup;
    if i == 0 {
      assert groups[..1] == [groups[0]] && groups[..1][1..] == [] && groups[..0] == [];
    } else {
      FillOneMoreGroup(ctx, groups[1..], i - 1);
      assert groups[..i + 1][1..] == groups[1..][..i] && groups[..i][1..] == groups[1..][..i - 1];
    }
  }
}
