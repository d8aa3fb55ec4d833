/**
 What a sheet reads as, line by line: which lines are of which case, what each kind of line says, and
 which error a sheet that is refused gives.
 */
module SheetAnswers {
  import opened Wrappers
  import opened SheetReader
  import opened SheetLaws
  import SetFill

  // ---------------------------------------------------------------- cutting the sheet into cases

  predicate Cuts(line: Line) {
    line.key.CaseHeader? || line.key == Separator
  }

  /** From `from` on, the lines go together up to `end`. */
  predicate Ends(body: seq<Line>, from: nat, end: nat) {
    && from <= end <= |body|
    && (forall j :: from <= j < end ==> !Cuts(body[j]))
    && (end < |body| ==> Cuts(body[end]))
  }

  lemma SplitStep(code: string, body: seq<Line>)
    requires body != [] && SplitCases(code, body).Ok?
    ensures var n, s := |body| - 1, SplitCases(code, body).value;
            var before := SplitCases(code, body[..n]);
            && before.Ok? && |before.value.cases| == |HeaderNumbers(body[..n])|
            && (before.value.open ==> before.value.cases != [])
            && (body[n].key.CaseHeader? ==> s == Split(before.value.cases + [Case(body[n].key.number, [])], before.value.free, true))
            && (!body[n].key.CaseHeader? && !before.value.open ==> s == before.value.(free := before.value.free + [body[n]]))
            && (body[n].key == Separator && before.value.open ==> s == before.value.(open := false))
            && (!Cuts(body[n]) && before.value.open ==>
                  var cases, k := before.value.cases, |before.value.cases| - 1;
                  s == before.value.(cases := cases[k := Case(cases[k].number, cases[k].lines + [body[n]])]))
  {
    CasesAreTheHeaders(code, body[..|body| - 1]);
  }

  /** Case `k` has those lines, and is the one that is open if it has all there are. */
  ghost predicate IsCase(s: Split, k: nat, c: Case, open: bool) {
    && k < |s.cases| && s.cases[k] == c
    && (open <==> s.open && k == |s.cases| - 1)
  }

  /** A line more goes to the case that is open, and to no other. */
  lemma OneMoreLine(code: string, body: seq<Line>, k: nat, c: Case, open: bool)
    requires body != [] && SplitCases(code, body).Ok?
    requires var before := SplitCases(code, body[..|body| - 1]); before.Ok? && IsCase(before.value, k, c, open)
    ensures var s, last := SplitCases(code, body).value, body[|body| - 1];
            IsCase(s, k, if open && !Cuts(last) then c.(lines := c.lines + [last]) else c, open && !Cuts(last))
  {
    SplitStep(code, body);
    hide SplitCases, HeaderNumbers;
  }

  /** The lines of a case are those from its header to the next header or separator. */
  lemma {:induction false} CaseLinesExactly(code: string, body: seq<Line>, h: nat, end: nat)
    requires SplitCases(code, body).Ok? && h < |body| && body[h].key.CaseHeader? && Ends(body, h + 1, end)
    ensures IsCase(SplitCases(code, body).value, |HeaderNumbers(body[..h])|, Case(body[h].key.number, body[h + 1..end]), end == |body|)
  {
    var n, k := |body| - 1, |HeaderNumbers(body[..h])|;
    SplitStep(code, body);
    hide SplitCases, HeaderNumbers;
    if h < n {
      var stop := if end < n then end else n;
      assert Ends(body[..n], h + 1, stop);
      assert body[..n][..h] == body[..h] && body[..n][h + 1..stop] == body[h + 1..stop];
      CaseLinesExactly(code, body[..n], h, stop);
      OneMoreLine(code, body, k, Case(body[h].key.number, body[h + 1..stop]), stop == n);
      if end == |body| {
        assert body[h + 1..end] == body[h + 1..n] + [body[n]];
      }
    } else {
      assert body[h + 1..end] == [];
    }
  }

  /** Line `i` comes after a header with no header and no separator in between. */
  predicate Inside(body: seq<Line>, i: nat)
    requires i <= |body|
  {
    exists h :: 0 <= h < i && body[h].key.CaseHeader? && forall j :: h < j < i ==> !Cuts(body[j])
  }

  /** The lines of no case, in order: neither headers nor between a header and what ends its case. */
  function FreeLines(body: seq<Line>): seq<Line> {
    if body == [] then []
    else
      var n := |body| - 1;
      FreeLines(body[..n]) + if body[n].key.CaseHeader? || Inside(body, n) then [] else [body[n]]
  }

  lemma InsideNext(body: seq<Line>)
    requires body != []
    ensures var n := |body| - 1;
            && Inside(body, n) == Inside(body[..n], n)
            && (Inside(body, n + 1) <==> body[n].key.CaseHeader? || (Inside(body, n) && body[n].key != Separator))
  {
    var n := |body| - 1;
    if Inside(body, n + 1) && !body[n].key.CaseHeader? {
      var h :| 0 <= h < n + 1 && body[h].key.CaseHeader? && forall j :: h < j < n + 1 ==> !Cuts(body[j]);
      assert h < n && !Cuts(body[n]);
    }
    if Inside(body[..n], n) {
      var h :| 0 <= h < n && body[..n][h].key.CaseHeader? && forall j :: h < j < n ==> !Cuts(body[..n][j]);
      assert body[h].key.CaseHeader? && forall j :: h < j < n ==> body[j] == body[..n][j];
    }
    if Inside(body, n) {
      var h :| 0 <= h < n && body[h].key.CaseHeader? && forall j :: h < j < n ==> !Cuts(body[j]);
      assert body[..n][h].key.CaseHeader? && forall j :: h < j < n ==> body[..n][j] == body[j];
    }
  }

  /** Everything else is free text. */
  lemma {:induction false} FreeLinesExactly(code: string, body: seq<Line>)
    requires SplitCases(code, body).Ok?
    ensures var s := SplitCases(code, body).value;
            s.free == FreeLines(body) && (s.open <==> Inside(body, |body|))
  {
    if body != [] {
      var n := |body| - 1;
      SplitStep(code, body);
      FreeLinesExactly(code, body[..n]);
      InsideNext(body);
      hide SplitCases, HeaderNumbers, Inside;
    }
  }

  /** The sheet can be cut exactly when every header is of this set. */
  lemma {:induction false} WrongSetExactly(code: string, body: seq<Line>)
    ensures SplitCases(code, body) == Err(WrongSet) <==> exists i :: 0 <= i < |body| && body[i].key.CaseHeader? && body[i].key.code != code
    ensures SplitCases(code, body).Err? ==> SplitCases(code, body) == Err(WrongSet)
  {
    if body != [] {
      var n := |body| - 1;
      WrongSetExactly(code, body[..n]);
      if i :| 0 <= i < n && body[i].key.CaseHeader? && body[i].key.code != code {
        assert body[..n][i] == body[i];
      }
    }
  }

  // ---------------------------------------------------------------- which lines are rows

  /** While a table is open every line is a row of it, but for blank ones, references, reasons and the keys
      that end with a colon; with none open there are no rows. */
  lemma RowsExactly(lines: seq<Line>, i: nat)
    requires i < |lines|
    ensures var open := FirstHeader(SinceBlank(lines[..i])) != NoTable;
            match lines[i].key
            case Blank => !IsRow(lines, i)
            case Reference(_) => !IsRow(lines, i)
            case Reason(_, _) => !IsRow(lines, i)
            case OutsideReference(_) => !IsRow(lines, i)
            case TransferReason(_) => !IsRow(lines, i)
            case LineDiscount(_, _) => !IsRow(lines, i)
            case Detail(colon, _) => IsRow(lines, i) <==> open && !colon
            case _ => IsRow(lines, i) <==> open
  {
    hide FirstHeader, SinceBlank;
  }

  // ---------------------------------------------------------------- the errors of a case

  /** What is wrong with a line that cannot be read. */
  function ErrorAt(lines: seq<Line>, i: nat): SheetError
    requires i < |lines|
  {
    if IsRow(lines, i) then BadRow
    else
      match lines[i].key
      case Document(_) => UnknownDocument
      case Reference(t) => if t == None then BadReference else NotEarlier
      case OutsideReference(_) => UnknownOutside
      case TransferReason(_) => UnknownTransfer
      case _ => Unrecognised
  }

  /** A case is refused for its first line that cannot be read, and with that line's error. */
  lemma {:induction false} CaseErrorExactly(number: nat, lines: seq<Line>, i: nat)
    requires i < |lines| && !Readable(number, lines, i) && forall j: nat :: j < i ==> Readable(number, lines, j)
    ensures ReadLines(number, lines) == Err(ErrorAt(lines, i))
  {
    var n := |lines| - 1;
    if i < n {
      ReadableBefore(number, lines, n, i);
      forall j: nat | j < i ensures Readable(number, lines[..n], j) {
        ReadableBefore(number, lines, n, j);
      }
      CaseErrorExactly(number, lines[..n], i);
      assert lines[..n][i] == lines[i];
    } else {
      forall j: nat | j < n ensures Readable(number, lines[..n], j) {
        ReadableBefore(number, lines, n, j);
      }
      CaseAcceptedExactly(number, lines[..n]);
      OpenTableExactly(number, lines[..n]);
      hide FirstHeader, SinceBlank;
    }
  }

  // ---------------------------------------------------------------- what the lines of a case say

  /** The reason of the last line that gives one. */
  function LastReason(lines: seq<Line>): Option<(string, Action)> {
    if lines == [] then None
    else
      var key := lines[|lines| - 1].key;
      if key.Reason? then Some((key.text, key.action)) else LastReason(lines[..|lines| - 1])
  }

  /** The kind of transfer of the last line that gives one. */
  function LastTransfer(lines: seq<Line>): Option<int> {
    if lines == [] then None
    else
      var key := lines[|lines| - 1].key;
      if key.TransferReason? then key.transferType else LastTransfer(lines[..|lines| - 1])
  }

  /** The references to outside documents, in order, under the folio 1. */
  function OutsideRefs(lines: seq<Line>): seq<SetFill.Ref> {
    if lines == [] then []
    else
      var key := lines[|lines| - 1].key;
      OutsideRefs(lines[..|lines| - 1])
      + if key.OutsideReference? && key.outside.Some? then
          [SetFill.Ref(Some(key.outside.value.docType), None, None, Some("1"), Some(key.outside.value.reason), None)]
        else []
  }

  /** The discounts by position, in order. */
  function DiscountsOf(lines: seq<Line>): seq<(nat, string)> {
    if lines == [] then []
    else
      var key := lines[|lines| - 1].key;
      DiscountsOf(lines[..|lines| - 1]) + if key.LineDiscount? then [(key.position, key.pct)] else []
  }

  /** Some line that is no row is of customs. */
  predicate OfCustoms(lines: seq<Line>) {
    exists i: nat :: i < |lines| && !IsRow(lines, i) && lines[i].key.Detail? && lines[i].key.customs
  }

  lemma OfCustomsNext(lines: seq<Line>)
    requires lines != []
    ensures var n := |lines| - 1;
            OfCustoms(lines) <==> OfCustoms(lines[..n]) || (!IsRow(lines, n) && lines[n].key.Detail? && lines[n].key.customs)
  {
    var n := |lines| - 1;
    forall i: nat | i < n ensures IsRow(lines[..n], i) == IsRow(lines, i) {
      ReadableBefore(0, lines, n, i);
    }
    hide IsRow;
    if i: nat :| i < n && !IsRow(lines, i) && lines[i].key.Detail? && lines[i].key.customs {
      assert !IsRow(lines[..n], i) && lines[..n][i] == lines[i];
    }
    if i: nat :| i < n && !IsRow(lines[..n], i) && lines[..n][i].key.Detail? && lines[..n][i].key.customs {
      assert !IsRow(lines, i) && lines[..n][i] == lines[i];
    }
  }

  lemma {:induction false} CaseSaysExactly(number: nat, lines: seq<Line>)
    requires ReadLines(number, lines).Ok?
    ensures var s := ReadLines(number, lines).value;
            && s.reason == LastReason(lines) && s.transferType == LastTransfer(lines)
            && s.outside == OutsideRefs(lines) && s.discounts == DiscountsOf(lines)
  {
    if lines != [] {
      CaseSaysExactly(number, lines[..|lines| - 1]);
    }
  }

  lemma {:induction false} CustomsExactly(number: nat, lines: seq<Line>)
    requires ReadLines(number, lines).Ok?
    ensures ReadLines(number, lines).value.customs <==> OfCustoms(lines)
  {
    if lines != [] {
      var n := |lines| - 1;
      CustomsExactly(number, lines[..n]);
      OpenTableExactly(number, lines[..n]);
      OfCustomsNext(lines);
      hide FirstHeader, SinceBlank, OfCustoms;
    }
  }

  // ---------------------------------------------------------------- lines of documents

  /** The last discount given for a position. */
  function LastDiscount(discounts: seq<(nat, string)>, position: nat): Option<string> {
    if discounts == [] then None
    else if discounts[|discounts| - 1].0 == position then Some(discounts[|discounts| - 1].1)
    else LastDiscount(discounts[..|discounts| - 1], position)
  }

  /** Discounts are refused exactly when one is for a line that is not there; each line gets the last one
      for it and is otherwise as it was. */
  lemma {:induction false} DiscountedExactly(items: seq<Item>, discounts: seq<(nat, string)>)
    ensures var r := Discounted(items, discounts);
            && (r == Err(NoSuchLine) <==> exists k :: 0 <= k < |discounts| && !(1 <= discounts[k].0 <= |items|))
            && (r.Err? ==> r.error == NoSuchLine)
            && (r.Ok? ==>
                  && |r.value| == |items|
                  && forall i :: 0 <= i < |items| ==>
                       var given := LastDiscount(discounts, i + 1);
                       r.value[i] == items[i].(discountPct := if given.Some? then given else items[i].discountPct))
  {
    if discounts != [] {
      var n := |discounts| - 1;
      DiscountedExactly(items, discounts[..n]);
      if k :| 0 <= k < n && !(1 <= discounts[k].0 <= |items|) {
        assert discounts[..n][k] == discounts[k];
      }
    }
  }

  /** A completed line says what the note says and, where it says nothing, what the document says; the
      unit only when the note gives a quantity. */
  lemma CompletedExactly(item: Item, base: Item)
    ensures var r := Completed(item, base);
            && r.name == item.name && r.rest == item.rest
            && r.quantity == (if item.quantity != None then item.quantity else base.quantity)
            && r.unitPrice == (if item.unitPrice != None then item.unitPrice else base.unitPrice)
            && r.discountPct == (if item.discountPct != None then item.discountPct else base.discountPct)
            && r.exempt == (if item.exempt != None then item.exempt else base.exempt)
            && r.unit == (if item.unit != None || item.quantity == None then item.unit else base.unit)
  {
  }

  /** The line of a name is the first that has it. */
  lemma {:induction false} FindItemIsFirst(clave: string -> string, originals: seq<Item>, name: string, k: nat)
    requires k < |originals| && clave(originals[k].name) == clave(name)
    requires forall j :: 0 <= j < k ==> clave(originals[j].name) != clave(name)
    ensures FindItem(clave, originals, name) == Some(originals[k])
  {
    if k > 0 {
      assert clave(originals[0].name) != clave(name);
      FindItemIsFirst(clave, originals[1..], name, k - 1);
    }
  }

  /** A note without lines of its own takes those it annuls as they are, or corrects a text in one line of
      nothing at no price, exempt when all of the document is; it cannot change amounts. */
  lemma WithoutLinesExactly(clave: string -> string, originals: seq<Item>, text: string)
    ensures Inherit(clave, [], originals, Annul, text) == Ok(originals)
    ensures Inherit(clave, [], originals, CorrectAmounts, text) == Err(NothingToModify)
    ensures var r := Inherit(clave, [], originals, CorrectText, text);
            && r.Ok? && |r.value| == 1
            && r.value[0].name == text && r.value[0].quantity == Some("0") && r.value[0].unitPrice == Some("0")
            && r.value[0].unit == None && r.value[0].discountPct == None && r.value[0].rest == map[]
            && r.value[0].exempt ==
                 if originals != [] && forall k :: 0 <= k < |originals| ==> originals[k].exempt == Some(true) then Some(true) else None
  {
    assert AllExempt(originals) <==> originals != [] && forall k :: 0 <= k < |originals| ==> originals[k].exempt == Some(true);
  }

  lemma WithLinesExactly(clave: string -> string, items: seq<Item>, originals: seq<Item>, action: Action, text: string)
    requires items != []
    ensures Inherit(clave, items, originals, action, text) == CompleteAll(clave, items, originals)
    ensures CompleteAll(clave, items, originals).Err? ==> CompleteAll(clave, items, originals).error == NotInOriginal
  {
    OnlyNotInOriginal(clave, items, originals);
  }

  lemma {:induction false} OnlyNotInOriginal(clave: string -> string, items: seq<Item>, originals: seq<Item>)
    ensures CompleteAll(clave, items, originals).Err? ==> CompleteAll(clave, items, originals).error == NotInOriginal
  {
    if items != [] {
      OnlyNotInOriginal(clave, items[..|items| - 1], originals);
    }
  }

  // ---------------------------------------------------------------- the document of a case

  predicate IsExport(docType: int) {
    docType == 110 || docType == 111 || docType == 112
  }

  /** The lines of a case before it takes any from another. */
  function OwnItems(ctx: Context, s: CaseState): Result<seq<Item>, SheetError>
    requires s.docType.Some?
  {
    Discounted(ItemsOf(ctx, s.docType.value, s.rows), s.discounts)
  }

  /** What a case that refers to one takes from it. */
  function Taken(ctx: Context, s: CaseState, earlier: seq<ReadDoc>): Result<seq<Item>, SheetError>
    requires s.docType.Some? && OwnItems(ctx, s).Ok? && (s.target.Some? ==> 0 < s.target.value <= |earlier|)
  {
    if s.target.Some? && s.reason.Some? then
      Inherit(ctx.clave, OwnItems(ctx, s).value, earlier[s.target.value - 1].items, s.reason.value.1, s.reason.value.0)
    else OwnItems(ctx, s)
  }

  /** A case gives no document exactly when it does not say which, discounts a line it does not have, refers
      without a reason, cannot take its lines from the document it refers to, or is of customs without
      being an export or a settlement; the first of these is its error. */
  lemma CaseRefusedExactly(ctx: Context, s: CaseState, earlier: seq<ReadDoc>)
    requires s.target.Some? ==> 0 < s.target.value <= |earlier|
    ensures FinishCase(ctx, s, earlier) == Err(NoDocument) <==> s.docType == None
    ensures s.docType != None && OwnItems(ctx, s).Err? ==> FinishCase(ctx, s, earlier) == Err(OwnItems(ctx, s).error)
    ensures s.docType != None && OwnItems(ctx, s).Ok? && s.target != None && s.reason == None ==>
              FinishCase(ctx, s, earlier) == Err(NoReason)
    ensures s.docType != None && OwnItems(ctx, s).Ok? && (s.target == None || s.reason != None) ==>
              var taken := Taken(ctx, s, earlier);
              var customs := ctx.kind != "liquidacion" && !IsExport(s.docType.value) && (s.outside != [] || s.customs);
              && (taken.Err? ==> FinishCase(ctx, s, earlier) == Err(taken.error))
              && (taken.Ok? && customs ==> FinishCase(ctx, s, earlier) == Err(CustomsElsewhere))
              && (taken.Ok? && !customs ==> FinishCase(ctx, s, earlier).Ok?)
  {
    if s.docType.Some? {
      DiscountedExactly(ItemsOf(ctx, s.docType.value, s.rows), s.discounts);
    }
    if s.docType.Some? && OwnItems(ctx, s).Ok? && s.target.Some? && s.reason.Some? {
      var own, originals := OwnItems(ctx, s).value, earlier[s.target.value - 1].items;
      if own != [] {
        WithLinesExactly(ctx.clave, own, originals, s.reason.value.1, s.reason.value.0);
      }
    }
    hide Discounted, CompleteAll, AllExempt;
  }

  /** The document of a case has its type, transfer and lines, refers to the case it modifies, by position and
      with the code of its reason, and then, an export, to the outside documents. A settlement has
      neither type nor lines. */
  lemma CaseDocumentExactly(ctx: Context, s: CaseState, earlier: seq<ReadDoc>)
    requires (s.target.Some? ==> 0 < s.target.value <= |earlier|) && FinishCase(ctx, s, earlier).Ok?
    ensures s.docType.Some? && OwnItems(ctx, s).Ok? && Taken(ctx, s, earlier).Ok? && (s.target.Some? ==> s.reason.Some?)
    ensures var doc, settlement := FinishCase(ctx, s, earlier).value, ctx.kind == "liquidacion";
            && doc.docType == (if settlement then 0 else s.docType.value) && doc.transferType == s.transferType
            && doc.items == (if settlement then [] else Taken(ctx, s, earlier).value)
            && doc.receiver == ctx.counterpart(doc.docType)
            && doc.references == OwnReference(s) + (if !settlement && IsExport(s.docType.value) then s.outside else [])
  {
    hide Discounted, Inherit;
  }

  /** The reference of a case to the one it modifies: its position, the reason, and 1 to annul, 2 to correct a
      text, 3 to change amounts. */
  function OwnReference(s: CaseState): seq<SetFill.Ref> {
    if s.target.None? || s.reason.None? then []
    else
      var code := if s.reason.value.1 == Annul then 1 else if s.reason.value.1 == CorrectText then 2 else 3;
      [SetFill.Ref(None, Some(s.target.value), None, None, Some(s.reason.value.0), Some(code))]
  }

  // ---------------------------------------------------------------- the whole sheet

  /** The first case that is wrong decides the error: out of order if it is not the next number, and
      otherwise its own. */
  lemma {:induction false} FirstBadCaseDecides(ctx: Context, cases: seq<Case>, i: nat)
    requires i < |cases| && ReadCases(ctx, cases[..i]).Ok?
    ensures cases[i].number != i + 1 ==> ReadCases(ctx, cases) == Err(OutOfOrder)
    ensures cases[i].number == i + 1 ==>
              var doc := ReadCase(ctx, cases[i], ReadCases(ctx, cases[..i]).value);
              doc.Err? ==> ReadCases(ctx, cases) == Err(doc.error)
    decreases |cases|
  {
    hide ReadCase;
    var n := |cases| - 1;
    if i < n {
      assert cases[..n][..i] == cases[..i];
      FirstBadCaseDecides(ctx, cases[..n], i);
    }
  }

  /** A sheet without headers has no cases; one with them reads as its cases do. */
  lemma SheetReadsAsItsCases(ctx: Context, body: seq<Line>)
    requires SplitCases(ctx.code, body).Ok?
    ensures HeaderNumbers(body) == [] ==> ReadSet(ctx, body) == Err(NoCases)
    ensures HeaderNumbers(body) != [] ==> ReadSet(ctx, body) == ReadCases(ctx, SplitCases(ctx.code, body).value.cases)
  {
    CasesAreTheHeaders(ctx.code, body);
    hide SplitCases, ReadCases, HeaderNumbers;
  }

  /** What is stored of a document is what was read, and nothing the system puts in. */
  lemma StoredAsRead(doc: ReadDoc)
    ensures var stored := ToDefinition(doc);
            && stored.docType == doc.docType && stored.transferType == doc.transferType && stored.receiver == doc.receiver
            && SetFill.RefsOf(stored) == doc.references
            && stored.issuer == None && stored.issueDate == None && stored.caseName == None && stored.transport == None
            && stored.references != Some([])
  {
  }
}
