/**
 What the reader guarantees of every sheet it accepts: cases numbered without a gap, references
 only to earlier cases, items that come from the document a chain starts from; and so what issuing
 the set relies on.
 */
module SheetLaws {
  import opened Wrappers
  import opened SheetReader
  import SetFill
  import SetFillLaws
  import SetReceivers

  // ---------------------------------------------------------------- cases and references

  /** The numbers of the case headers, in order. */
  function HeaderNumbers(body: seq<Line>): seq<nat> {
    if body == [] then []
    else
      var last := body[|body| - 1].key;
      HeaderNumbers(body[..|body| - 1]) + if last.CaseHeader? then [last.number] else []
  }

  function NumbersOf(cases: seq<Case>): (r: seq<nat>)
    ensures |r| == |cases| && forall i :: 0 <= i < |cases| ==> r[i] == cases[i].number
  {
    seq(|cases|, i requires 0 <= i < |cases| => cases[i].number)
  }

  lemma SplitLineHeads(code: string, s: Split, line: Line)
    requires SplitLine(code, s, line).Ok? && (s.open ==> s.cases != [])
    ensures var next := SplitLine(code, s, line).value;
            && NumbersOf(next.cases) == NumbersOf(s.cases) + (if line.key.CaseHeader? then [line.key.number] else [])
            && (next.open ==> next.cases != []) && (line.key.CaseHeader? ==> line.key.code == code)
  {
  }

  /** The cases are the headers, in order, and every header is of this set. */
  lemma {:induction false} CasesAreTheHeaders(code: string, body: seq<Line>)
    requires SplitCases(code, body).Ok?
    ensures var s := SplitCases(code, body).value;
            NumbersOf(s.cases) == HeaderNumbers(body) && (s.open ==> s.cases != [])
    ensures forall l <- body :: l.key.CaseHeader? ==> l.key.code == code
  {
    if body != [] {
      var n := |body| - 1;
      CasesAreTheHeaders(code, body[..n]);
      SplitLineHeads(code, SplitCases(code, body[..n]).value, body[n]);
      assert body == body[..n] + [body[n]];
      hide SplitLine, NumbersOf;
    }
  }

  lemma {:induction false} CasesAreConsecutive(ctx: Context, cases: seq<Case>)
    requires ReadCases(ctx, cases).Ok?
    ensures Numbered(cases)
  {
    hide ReadCase;
    if cases != [] {
      CasesAreConsecutive(ctx, cases[..|cases| - 1]);
    }
  }

  /** An accepted sheet has its cases numbered 1, 2, 3 and so on, all of this set, and one document
      for each. */
  lemma ReadSetsAreNumbered(ctx: Context, body: seq<Line>)
    requires ReadSet(ctx, body).Ok?
    ensures |ReadSet(ctx, body).value| == |HeaderNumbers(body)| > 0
    ensures forall i :: 0 <= i < |HeaderNumbers(body)| ==> HeaderNumbers(body)[i] == i + 1
    ensures forall l <- body :: l.key.CaseHeader? ==> l.key.code == ctx.code
  {
    CasesAreTheHeaders(ctx.code, body);
    CasesAreConsecutive(ctx, SplitCases(ctx.code, body).value.cases);
  }

  /** Reading a longer sheet does not change what earlier cases read as. */
  lemma {:induction false} EarlierCasesStay(ctx: Context, cases: seq<Case>, i: nat)
    requires ReadCases(ctx, cases).Ok? && i < |cases|
    ensures ReadCases(ctx, cases[..i]).Ok? && ReadCases(ctx, cases[..i]).value == ReadCases(ctx, cases).value[..i]
    ensures cases[i].number == i + 1
    ensures ReadCase(ctx, cases[i], ReadCases(ctx, cases).value[..i]) == Ok(ReadCases(ctx, cases).value[i])
    decreases |cases|
  {
    var n := |cases| - 1;
    var docs := ReadCases(ctx, cases).value;
    assert docs[..n] == ReadCases(ctx, cases[..n]).value;
    hide ReadCase;
    if i < n {
      EarlierCasesStay(ctx, cases[..n], i);
      assert cases[..n][..i] == cases[..i] && docs[..n][..i] == docs[..i];
    }
  }

  // ---------------------------------------------------------------- what the lines of a case mean

  /** The lines after the last blank one. */
  function SinceBlank(lines: seq<Line>): seq<Line> {
    if lines == [] || lines[|lines| - 1].key == Blank then []
    else SinceBlank(lines[..|lines| - 1]) + [lines[|lines| - 1]]
  }

  function TableOf(key: Key): Table {
    if key == ItemTable then Items else if key == CommissionTable then Commissions else NoTable
  }

  function FirstHeader(lines: seq<Line>): Table {
    if lines == [] then NoTable
    else if TableOf(lines[0].key) != NoTable then TableOf(lines[0].key)
    else FirstHeader(lines[1..])
  }

  lemma {:induction false} FirstHeaderNext(lines: seq<Line>, line: Line)
    ensures FirstHeader(lines + [line]) == if FirstHeader(lines) != NoTable then FirstHeader(lines) else TableOf(line.key)
  {
    if lines == [] {
      assert ([line])[1..] == [];
    } else {
      FirstHeaderNext(lines[1..], line);
      assert (lines + [line])[1..] == lines[1..] + [line];
    }
  }

  /** The table that is open after some lines is the one of the first header since the last blank
      line: a later header, like any other line, is one of its rows. */
  lemma {:induction false} OpenTableExactly(number: nat, lines: seq<Line>)
    requires ReadLines(number, lines).Ok?
    ensures ReadLines(number, lines).value.table == FirstHeader(SinceBlank(lines))
  {
    if lines != [] {
      var n := |lines| - 1;
      OpenTableExactly(number, lines[..n]);
      FirstHeaderNext(SinceBlank(lines[..n]), lines[n]);
      hide FirstHeader, SinceBlank;
      assert lines[n].key != Blank ==> SinceBlank(lines) == SinceBlank(lines[..n]) + [lines[n]] by {
        SinceBlankNext(lines);
      }
      assert lines[n].key == Blank ==> FirstHeader(SinceBlank(lines)) == NoTable by {
        SinceBlankNext(lines);
      }
    }
  }

  lemma SinceBlankNext(lines: seq<Line>)
    requires lines != []
    ensures var n := |lines| - 1;
            if lines[n].key == Blank then FirstHeader(SinceBlank(lines)) == NoTable
            else SinceBlank(lines) == SinceBlank(lines[..n]) + [lines[n]]
  {
  }

  /** Line `i` is a row: a table is open, and its key neither ends with a colon nor refers. */
  predicate IsRow(lines: seq<Line>, i: nat)
    requires i < |lines|
  {
    var key := lines[i].key;
    && key != Blank && FirstHeader(SinceBlank(lines[..i])) != NoTable
    && !EndsWithColon(key) && !key.Reference? && !key.Reason?
  }

  /** A line that can be read where it stands: a row that fits its table, or a key that is complete. */
  predicate Readable(number: nat, lines: seq<Line>, i: nat)
    requires i < |lines|
  {
    if IsRow(lines, i) then lines[i].row.Some?
    else
      match lines[i].key
      case Document(t) => t.Some?
      case Reference(t) => t.Some? && 0 < t.value < number
      case OutsideReference(o) => o.Some?
      case TransferReason(t) => t.Some?
      case CaseHeader(_, _) => false
      case Separator => false
      case Unknown => false
      case _ => true
  }

  lemma ReadableBefore(number: nat, lines: seq<Line>, n: nat, i: nat)
    requires i < n <= |lines|
    ensures Readable(number, lines[..n], i) == Readable(number, lines, i) && IsRow(lines[..n], i) == IsRow(lines, i)
  {
    assert lines[..n][..i] == lines[..i];
  }

  /** The lines of a case are accepted exactly when each can be read where it stands. */
  lemma {:induction false} CaseAcceptedExactly(number: nat, lines: seq<Line>)
    ensures ReadLines(number, lines).Ok? <==> forall i: nat :: i < |lines| ==> Readable(number, lines, i)
  {
    if lines != [] {
      var n := |lines| - 1;
      CaseAcceptedExactly(number, lines[..n]);
      forall i: nat | i < n ensures Readable(number, lines[..n], i) == Readable(number, lines, i) {
        ReadableBefore(number, lines, n, i);
      }
      if ReadLines(number, lines[..n]).Ok? {
        OpenTableExactly(number, lines[..n]);
        hide FirstHeader, SinceBlank;
        assert ReadLine(number, ReadLines(number, lines[..n]).value, lines[n]).Ok? <==> Readable(number, lines, n);
      } else {
        var i: nat :| i < n && !Readable(number, lines[..n], i);
        assert !Readable(number, lines, i);
      }
    }
  }

  /** The rows of the item tables, in order. */
  function ItemRows(lines: seq<Line>): seq<Fields> {
    if lines == [] then []
    else
      var n := |lines| - 1;
      ItemRows(lines[..n])
      + if IsRow(lines, n) && FirstHeader(SinceBlank(lines[..n])) == Items && lines[n].row.Some? then [lines[n].row.value] else []
  }

  /** The type the last line that names a document, outside every table, gives it. */
  function LastDocument(lines: seq<Line>): Option<int> {
    if lines == [] then None
    else
      var n := |lines| - 1;
      if lines[n].key.Document? && !IsRow(lines, n) then lines[n].key.docType else LastDocument(lines[..n])
  }

  /** The case the last reference points to; a reference counts inside a table too. */
  function LastTarget(lines: seq<Line>): Option<nat> {
    if lines == [] then None
    else if lines[|lines| - 1].key.Reference? then lines[|lines| - 1].key.target
    else LastTarget(lines[..|lines| - 1])
  }

  lemma {:induction false} TypeOfLastDocument(number: nat, lines: seq<Line>)
    requires ReadLines(number, lines).Ok?
    ensures ReadLines(number, lines).value.docType == LastDocument(lines)
  {
    if lines != [] {
      TypeOfLastDocument(number, lines[..|lines| - 1]);
      OpenTableExactly(number, lines[..|lines| - 1]);
      hide FirstHeader, SinceBlank;
    }
  }

  lemma {:induction false} TargetOfLastReference(number: nat, lines: seq<Line>)
    requires ReadLines(number, lines).Ok?
    ensures ReadLines(number, lines).value.target == LastTarget(lines)
  {
    if lines != [] {
      TargetOfLastReference(number, lines[..|lines| - 1]);
    }
  }

  lemma {:induction false} RowsOfItemTables(number: nat, lines: seq<Line>)
    requires ReadLines(number, lines).Ok?
    ensures ReadLines(number, lines).value.rows == ItemRows(lines)
  {
    if lines != [] {
      RowsOfItemTables(number, lines[..|lines| - 1]);
      OpenTableExactly(number, lines[..|lines| - 1]);
      hide FirstHeader, SinceBlank;
    }
  }

  /** An accepted case is of the type its last DOCUMENTO line says, refers where its last reference
      points, and has exactly the rows of its item tables. */
  lemma CaseMeaning(number: nat, lines: seq<Line>)
    requires ReadLines(number, lines).Ok?
    ensures var s := ReadLines(number, lines).value;
            s.docType == LastDocument(lines) && s.target == LastTarget(lines) && s.rows == ItemRows(lines)
  {
    TypeOfLastDocument(number, lines);
    TargetOfLastReference(number, lines);
    RowsOfItemTables(number, lines);
    hide ReadLines, LastDocument, LastTarget, ItemRows;
  }

  /** The reference of a case, when it has one: to an earlier case, with the reason's action. */
  lemma CaseRefersBackward(ctx: Context, c: Case, earlier: seq<ReadDoc>)
    requires c.number == |earlier| + 1 && ReadCase(ctx, c, earlier).Ok?
    ensures forall r <- ReadCase(ctx, c, earlier).value.references :: r.batchIndex.Some? ==> 0 < r.batchIndex.value <= |earlier|
  {
    TargetIsEarlier(c.number, c.lines);
    OutsideStaysOutside(c.number, c.lines);
    hide ReadLines;
  }

  lemma {:induction false} OutsideStaysOutside(number: nat, lines: seq<Line>)
    ensures var s := ReadLines(number, lines);
            s.Ok? ==> forall r <- s.value.outside :: r.batchIndex.None?
  {
    if lines != [] {
      OutsideStaysOutside(number, lines[..|lines| - 1]);
    }
  }

  function Definitions(docs: seq<ReadDoc>): (r: seq<SetFill.Doc>)
    ensures |r| == |docs| && forall i :: 0 <= i < |docs| ==> r[i] == ToDefinition(docs[i])
  {
    seq(|docs|, i requires 0 <= i < |docs| => ToDefinition(docs[i]))
  }

  /** Every reference the reader accepts points backward. */
  lemma ReadSetsReferBackward(ctx: Context, cases: seq<Case>)
    requires ReadCases(ctx, cases).Ok?
    ensures SetFillLaws.RefersBackward(Definitions(ReadCases(ctx, cases).value))
  {
    var docs := ReadCases(ctx, cases).value;
    forall i, j | 0 <= i < |docs| && 0 <= j < |SetFill.RefsOf(Definitions(docs)[i])|
      && SetFill.RefsOf(Definitions(docs)[i])[j].batchIndex.Some?
      ensures SetFill.RefsOf(Definitions(docs)[i])[j].batchIndex.value <= i
    {
      EarlierCasesStay(ctx, cases, i);
      CaseRefersBackward(ctx, cases[i], docs[..i]);
      assert SetFill.RefsOf(Definitions(docs)[i]) == docs[i].references;
      assert docs[i].references[j] in docs[i].references;
    }
  }

  // ---------------------------------------------------------------- inheritance

  lemma {:induction false} FindItemFinds(clave: string -> string, originals: seq<Item>, name: string)
    ensures var found := FindItem(clave, originals, name);
            && (found.Some? ==> found.value in originals && clave(found.value.name) == clave(name))
            && (found.None? ==> forall o <- originals :: clave(o.name) != clave(name))
  {
    if originals != [] {
      FindItemFinds(clave, originals[1..], name);
    }
  }

  /** A name the document has. */
  predicate NamedIn(clave: string -> string, item: Item, originals: seq<Item>) {
    exists o <- originals :: clave(o.name) == clave(item.name)
  }

  predicate AllNamedIn(clave: string -> string, items: seq<Item>, originals: seq<Item>) {
    forall i <- items :: NamedIn(clave, i, originals)
  }

  /** Completing succeeds exactly when the document has every line the note names. */
  lemma {:induction false} CompleteAllExactly(clave: string -> string, items: seq<Item>, originals: seq<Item>)
    ensures CompleteAll(clave, items, originals).Ok? <==> forall i <- items :: NamedIn(clave, i, originals)
    ensures CompleteAll(clave, items, originals).Ok? ==> |CompleteAll(clave, items, originals).value| == |items|
  {
    if items != [] {
      var n, last := |items| - 1, items[|items| - 1];
      CompleteAllExactly(clave, items[..n], originals);
      FindItemFinds(clave, originals, last.name);
      assert NamedIn(clave, last, originals) <==> FindItem(clave, originals, last.name).Some?;
      hide NamedIn, FindItem;
      assert forall i :: i in items <==> i in items[..n] || i == last;
    }
  }

  /** It keeps the lines, their order and everything they say, and adds only what the first line of
      that name says. */
  lemma {:induction false} CompletedLine(clave: string -> string, items: seq<Item>, originals: seq<Item>, k: nat)
    requires CompleteAll(clave, items, originals).Ok? && k < |items|
    ensures var done, base := CompleteAll(clave, items, originals).value, FindItem(clave, originals, items[k].name);
            |done| == |items| && base.Some? && done[k] == Completed(items[k], base.value)
  {
    var n := |items| - 1;
    CompleteAllExactly(clave, items, originals);
    CompleteAllExactly(clave, items[..n], originals);
    hide FindItem, Completed, NamedIn;
    if k < n {
      CompletedLine(clave, items[..n], originals, k);
      assert items[..n][k] == items[k];
    }
  }

  /** A note fails to inherit exactly when it changes amounts without lines, or names a line the
      document does not have. */
  lemma InheritExactly(clave: string -> string, items: seq<Item>, originals: seq<Item>, action: Action, text: string)
    ensures Inherit(clave, items, originals, action, text).Err? <==>
              if items == [] then action == CorrectAmounts else exists i <- items :: !NamedIn(clave, i, originals)
  {
    CompleteAllExactly(clave, items, originals);
  }

  /** Cases that take their lines from an earlier one: all that refer to one, except those that
      only correct its text. */
  function Takes(ctx: Context, c: Case): Option<nat> {
    var s := ReadLines(c.number, c.lines);
    if s.Ok? && s.value.target.Some? && s.value.reason.Some? && (s.value.rows != [] || s.value.reason.value.1 != CorrectText)
    then s.value.target else None
  }

  predicate JustAnnuls(ctx: Context, c: Case) {
    var s := ReadLines(c.number, c.lines);
    s.Ok? && s.value.target.Some? && s.value.reason.Some? && s.value.rows == [] && s.value.reason.value.1 == Annul
  }

  lemma {:induction false} NoDiscountsOnNothing(discounts: seq<(nat, string)>)
    ensures Discounted([], discounts).Ok? ==> Discounted([], discounts).value == []
  {
    if discounts != [] {
      NoDiscountsOnNothing(discounts[..|discounts| - 1]);
    }
  }

  lemma {:induction false} DiscountsKeepNames(items: seq<Item>, discounts: seq<(nat, string)>)
    ensures var done := Discounted(items, discounts);
            done.Ok? ==> |done.value| == |items| && forall k :: 0 <= k < |items| ==> done.value[k].name == items[k].name
  {
    if discounts != [] {
      DiscountsKeepNames(items, discounts[..|discounts| - 1]);
    }
  }

  /** One step of a chain: annulling takes the very lines, anything else lines of the same names. */
  lemma CaseTakesLines(ctx: Context, c: Case, earlier: seq<ReadDoc>)
    requires c.number == |earlier| + 1 && ReadCase(ctx, c, earlier).Ok? && Takes(ctx, c).Some?
    ensures var t, doc := Takes(ctx, c).value, ReadCase(ctx, c, earlier).value;
            && 0 < t <= |earlier|
            && AllNamedIn(ctx.clave, doc.items, earlier[t - 1].items)
            && (ctx.kind != SETTLEMENT && JustAnnuls(ctx, c) ==> doc.items == earlier[t - 1].items)
  {
    TargetIsEarlier(c.number, c.lines);
    var s := ReadLines(c.number, c.lines).value;
    var originals := earlier[s.target.value - 1].items;
    var own := Discounted(ItemsOf(ctx, s.docType.value, s.rows), s.discounts).value;
    if s.rows == [] {
      assert ItemsOf(ctx, s.docType.value, s.rows) == [];
      NoDiscountsOnNothing(s.discounts);
    } else {
      DiscountsKeepNames(ItemsOf(ctx, s.docType.value, s.rows), s.discounts);
    }
    hide ReadLines, Discounted;
    CompleteAllExactly(ctx.clave, own, originals);
    var items := Inherit(ctx.clave, own, originals, s.reason.value.1, s.reason.value.0).value;
    forall i | i in items ensures NamedIn(ctx.clave, i, originals) {
      if own == [] {
        assert i in originals;
      } else {
        var k :| 0 <= k < |items| && items[k] == i;
        CompletedLine(ctx.clave, own, originals, k);
        FindItemFinds(ctx.clave, originals, own[k].name);
      }
    }
  }

  lemma TakesBackward(ctx: Context, c: Case)
    ensures Takes(ctx, c).Some? ==> 0 < Takes(ctx, c).value < c.number
  {
    TargetIsEarlier(c.number, c.lines);
  }

  predicate Numbered(cases: seq<Case>) {
    forall k :: 0 <= k < |cases| ==> cases[k].number == k + 1
  }

  /** The case a chain of notes starts from. */
  function Origin(ctx: Context, cases: seq<Case>, i: nat): (r: nat)
    requires i < |cases| && Numbered(cases)
    ensures r <= i
  {
    TakesBackward(ctx, cases[i]);
    if Takes(ctx, cases[i]).Some? then Origin(ctx, cases, Takes(ctx, cases[i]).value - 1) else i
  }

  /** Every note along the chain annuls without lines of its own. */
  predicate AllAnnul(ctx: Context, cases: seq<Case>, i: nat)
    requires i < |cases| && Numbered(cases)
  {
    TakesBackward(ctx, cases[i]);
    Takes(ctx, cases[i]).Some? ==> JustAnnuls(ctx, cases[i]) && AllAnnul(ctx, cases, Takes(ctx, cases[i]).value - 1)
  }

  lemma NamedInIsTransitive(clave: string -> string, a: seq<Item>, b: seq<Item>, c: seq<Item>)
    requires AllNamedIn(clave, a, b) && AllNamedIn(clave, b, c)
    ensures AllNamedIn(clave, a, c)
  {
  }

  lemma NamedInIsReflexive(clave: string -> string, a: seq<Item>)
    ensures AllNamedIn(clave, a, a)
  {
  }

  /** One step of a chain, within the set. */
  lemma NoteTakesLines(ctx: Context, cases: seq<Case>, i: nat)
    requires ReadCases(ctx, cases).Ok? && i < |cases| && Takes(ctx, cases[i]).Some?
    ensures var docs, t := ReadCases(ctx, cases).value, Takes(ctx, cases[i]).value;
            && 0 < t <= i
            && AllNamedIn(ctx.clave, docs[i].items, docs[t - 1].items)
            && (ctx.kind != SETTLEMENT && JustAnnuls(ctx, cases[i]) ==> docs[i].items == docs[t - 1].items)
  {
    var docs := ReadCases(ctx, cases).value;
    EarlierCasesStay(ctx, cases, i);
    CaseTakesLines(ctx, cases[i], docs[..i]);
    hide ReadCases, ReadCase, ReadLines, NamedIn;
  }

  /** However long a chain of notes, every line of the last names a line of the document the chain
      starts from. */
  lemma {:induction false} LinesComeFromTheOrigin(ctx: Context, cases: seq<Case>, i: nat)
    requires ReadCases(ctx, cases).Ok? && i < |cases| && Numbered(cases)
    ensures var docs := ReadCases(ctx, cases).value;
            AllNamedIn(ctx.clave, docs[i].items, docs[Origin(ctx, cases, i)].items)
    decreases i
  {
    hide ReadCases, Takes, NamedIn, Numbered;
    var docs := ReadCases(ctx, cases).value;
    if Takes(ctx, cases[i]).Some? {
      var t := Takes(ctx, cases[i]).value;
      NoteTakesLines(ctx, cases, i);
      LinesComeFromTheOrigin(ctx, cases, t - 1);
      NamedInIsTransitive(ctx.clave, docs[i].items, docs[t - 1].items, docs[Origin(ctx, cases, t - 1)].items);
    } else {
      NamedInIsReflexive(ctx.clave, docs[i].items);
    }
  }

  /** And if all of them just annul, the lines are that document's. */
  lemma {:induction false} AnnulledLinesAreTheOrigins(ctx: Context, cases: seq<Case>, i: nat)
    requires ReadCases(ctx, cases).Ok? && i < |cases| && Numbered(cases)
    requires ctx.kind != SETTLEMENT && AllAnnul(ctx, cases, i)
    ensures var docs := ReadCases(ctx, cases).value;
            docs[i].items == docs[Origin(ctx, cases, i)].items
    decreases i
  {
    hide ReadCases, Takes, JustAnnuls, AllNamedIn, Numbered;
    if Takes(ctx, cases[i]).Some? {
      NoteTakesLines(ctx, cases, i);
      AnnulledLinesAreTheOrigins(ctx, cases, Takes(ctx, cases[i]).value - 1);
    }
  }

  // ---------------------------------------------------------------- from the sheet to the envelope

  function LotOf(docs: seq<ReadDoc>): SetFill.Payload {
    SetFill.EMPTY.(documents := Definitions(docs))
  }

  /** For every sheet the reader accepts, whatever the taxpayer and its test receivers: one pass
      gives every note without a receiver of its own the one of the document its chain starts
      from; and issuing the set again the same day issues the same exactly when each document handed
      the SII as its receiver would be handed it again, which is always so unless the SII is among the
      test receivers. */
  lemma ReadSetsAreIssuedInOnePass(reader: Context, body: seq<Line>, ctx: SetFill.Context, i: nat)
    requires ReadSet(reader, body).Ok? && i < |ReadSet(reader, body).value|
    ensures var lot := LotOf(ReadSet(reader, body).value);
            var filled := SetFill.Fill(ctx, SetFill.Documents, lot);
            && |filled.documents| == |lot.documents|
            && SetReceivers.Backward(SetFillLaws.BeforePass(ctx, lot.documents))
            && SetFill.ReceiverOf(filled.documents[i]) ==
               SetFill.ReceiverOf(filled.documents[SetReceivers.Root(SetFillLaws.BeforePass(ctx, lot.documents), i)])
            && (SetFill.Fill(ctx, SetFill.Documents, filled) == filled <==>
                SetReceivers.HandedAlike(SetFill.UsableReceivers(ctx.receivers), lot.documents))
            && (SetReceivers.NoneIsTheSii(SetFill.UsableReceivers(ctx.receivers)) ==>
                  SetReceivers.HandedAlike(SetFill.UsableReceivers(ctx.receivers), lot.documents))
  {
    var cases, docs := SplitCases(reader.code, body).value.cases, ReadSet(reader, body).value;
    var lot := LotOf(docs);
    ReadSetsReferBackward(reader, cases);
    SetFillLaws.FilledNotesInherit(ctx, lot, i);
    SetFillLaws.RefillIsTheSameExactly(ctx, lot);
    if SetReceivers.NoneIsTheSii(SetFill.UsableReceivers(ctx.receivers)) {
      SetReceivers.WithoutSiiHandedAlike(SetFill.UsableReceivers(ctx.receivers), lot.documents);
    }
  }
}
