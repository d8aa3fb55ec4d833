/**
 Reading the SII's set of cases: which document each case is, which earlier case it modifies, and
 what it takes from it.
 */
module SheetReader {
  import opened Wrappers
  import SetFill

  type Fields = SetFill.Fields

  const EXPORTS: set<int> := {110, 111, 112}
  const SETTLEMENT := "liquidacion"

  /** A line of a document; a field that is missing is not the same as an empty one. */
  datatype Item = Item(
    name: string, quantity: Option<string>, unitPrice: Option<string>, unit: Option<string>, discountPct: Option<string>,
    exempt: Option<bool>, rest: Fields)

  /** What a note does to the document it modifies, from the first word of its reason. */
  datatype Action = Annul | CorrectText | CorrectAmounts

  /** A document outside the set that an export refers to. */
  datatype Outside = Outside(docType: string, reason: string)

  const OUTSIDE_FOLIO := "1"

  function OutsideRef(o: Outside): SetFill.Ref {
    SetFill.Ref(Some(o.docType), None, None, Some(OUTSIDE_FOLIO), Some(o.reason), None)
  }

  /** What the first cell of a line says. */
  datatype Key =
    | CaseHeader(code: string, number: nat)
    | Separator
    | Blank
    | Document(docType: Option<int>)
    | ItemTable
    | CommissionTable
    | Reference(target: Option<nat>)
    | Reason(text: string, action: Action)
    | OutsideReference(outside: Option<Outside>)
    | TransferReason(transferType: Option<int>)
    | LineDiscount(position: nat, pct: string)
    | Detail(colon: bool, customs: bool)
    | Unknown

  /** A line of the sheet, and how it reads as a row of the table that is open: not at all when
      it does not fit its columns. */
  datatype Line = Line(key: Key, row: Option<Fields>)

  datatype SheetError =
    | WrongSet | OutOfOrder | NoCases | BadRow | UnknownDocument | BadReference | NotEarlier | UnknownOutside
    | UnknownTransfer | Unrecognised | NoDocument | NoSuchLine | NoReason | NothingToModify | NotInOriginal | CustomsElsewhere

  /** The set being read; how names are compared, rows become items, and foreign parties are known. */
  datatype Context = Context(
    kind: string, code: string, clave: string -> string, item: (int, Fields) -> Item, counterpart: int -> Option<SetFill.Party>)

  // ---------------------------------------------------------------- cases

  datatype Case = Case(number: nat, lines: seq<Line>)

  datatype Split = Split(cases: seq<Case>, free: seq<Line>, open: bool)

  function SplitLine(code: string, s: Split, line: Line): Result<Split, SheetError> {
    if line.key.CaseHeader? then
      if line.key.code != code then Err(WrongSet) else Ok(Split(s.cases + [Case(line.key.number, [])], s.free, true))
    else if s.open && line.key == Separator then Ok(s.(open := false))
    else if s.open && s.cases != [] then
      var last := s.cases[|s.cases| - 1];
      Ok(s.(cases := s.cases[|s.cases| - 1 := last.(lines := last.lines + [line])]))
    else Ok(s.(free := s.free + [line]))
  }

  function SplitCases(code: string, body: seq<Line>): Result<Split, SheetError> {
    if body == [] then Ok(Split([], [], false))
    else
      var before := SplitCases(code, body[..|body| - 1]);
      if before.Err? then before else SplitLine(code, before.value, body[|body| - 1])
  }

  // ---------------------------------------------------------------- one case

  datatype Table = NoTable | Items | Commissions

  datatype CaseState = CaseState(
    docType: Option<int>, transferType: Option<int>, table: Table, rows: seq<Fields>, target: Option<nat>,
    reason: Option<(string, Action)>, outside: seq<SetFill.Ref>, discounts: seq<(nat, string)>, customs: bool)

  const START := CaseState(None, None, NoTable, [], None, None, [], [], false)

  predicate EndsWithColon(key: Key) {
    key.OutsideReference? || key.TransferReason? || key.LineDiscount? || (key.Detail? && key.colon)
  }

  predicate ReadsAsRow(s: CaseState, key: Key) {
    s.table != NoTable && !EndsWithColon(key) && !key.Reference? && !key.Reason?
  }

  function ReadLine(number: nat, s: CaseState, line: Line): Result<CaseState, SheetError> {
    if line.key == Blank then Ok(s.(table := NoTable))
    else if ReadsAsRow(s, line.key) then
      if line.row.None? then Err(BadRow)
      else Ok(if s.table == Items then s.(rows := s.rows + [line.row.value]) else s)
    else
      match line.key
      case Document(t) => if t.None? then Err(UnknownDocument) else Ok(s.(docType := t))
      case ItemTable => Ok(s.(table := Items))
      case CommissionTable => Ok(s.(table := Commissions))
      case Reference(t) =>
        if t.None? then Err(BadReference)
        else if !(0 < t.value < number) then Err(NotEarlier)
        else Ok(s.(target := t))
      case Reason(text, action) => Ok(s.(reason := Some((text, action))))
      case OutsideReference(r) => if r.None? then Err(UnknownOutside) else Ok(s.(outside := s.outside + [OutsideRef(r.value)]))
      case TransferReason(t) => if t.None? then Err(UnknownTransfer) else Ok(s.(transferType := t))
      case LineDiscount(position, pct) => Ok(s.(discounts := s.discounts + [(position, pct)]))
      case Detail(_, customs) => Ok(s.(customs := s.customs || customs))
      case _ => Err(Unrecognised)
  }

  function ReadLines(number: nat, lines: seq<Line>): Result<CaseState, SheetError> {
    if lines == [] then Ok(START)
    else
      var before := ReadLines(number, lines[..|lines| - 1]);
      if before.Err? then before else ReadLine(number, before.value, lines[|lines| - 1])
  }

  // ---------------------------------------------------------------- what a note takes from its document

  function FindItem(clave: string -> string, originals: seq<Item>, name: string): Option<Item> {
    if originals == [] then None
    else if clave(originals[0].name) == clave(name) then Some(originals[0])
    else FindItem(clave, originals[1..], name)
  }

  function OrFrom<T>(own: Option<T>, base: Option<T>): Option<T> {
    if own.Some? then own else base
  }

  /** What the note does not say is what the document says; its unit, only when the note gives a
      quantity: a return moves units, a change of amounts does not. */
  function Completed(item: Item, base: Item): Item {
    item.(quantity := OrFrom(item.quantity, base.quantity),
          unitPrice := OrFrom(item.unitPrice, base.unitPrice),
          discountPct := OrFrom(item.discountPct, base.discountPct),
          exempt := OrFrom(item.exempt, base.exempt),
          unit := if item.quantity.Some? then OrFrom(item.unit, base.unit) else item.unit)
  }

  function CompleteAll(clave: string -> string, items: seq<Item>, originals: seq<Item>): Result<seq<Item>, SheetError> {
    if items == [] then Ok([])
    else
      var before := CompleteAll(clave, items[..|items| - 1], originals);
      if before.Err? then before
      else
        var last := items[|items| - 1];
        var base := FindItem(clave, originals, last.name);
        if base.None? then Err(NotInOriginal) else Ok(before.value + [Completed(last, base.value)])
  }

  predicate AllExempt(items: seq<Item>) {
    items != [] && forall i <- items :: i.exempt == Some(true)
  }

  function Inherit(clave: string -> string, items: seq<Item>, originals: seq<Item>, action: Action, text: string)
    : Result<seq<Item>, SheetError>
  {
    if items != [] then CompleteAll(clave, items, originals)
    else
      match action
      case Annul => Ok(originals)
      case CorrectText =>
        Ok([Item(text, Some("0"), Some("0"), None, None, if AllExempt(originals) then Some(true) else None, map[])])
      case CorrectAmounts => Err(NothingToModify)
  }

  // ---------------------------------------------------------------- the document of a case

  /** A document of the set; a settlement has neither type nor items. */
  datatype ReadDoc = ReadDoc(
    docType: int, transferType: Option<int>, items: seq<Item>, references: seq<SetFill.Ref>, receiver: Option<SetFill.Party>)

  function ItemsOf(ctx: Context, docType: int, rows: seq<Fields>): (r: seq<Item>)
    ensures |r| == |rows|
  {
    seq(|rows|, i requires 0 <= i < |rows| => ctx.item(docType, rows[i]))
  }

  function Discounted(items: seq<Item>, discounts: seq<(nat, string)>): Result<seq<Item>, SheetError> {
    if discounts == [] then Ok(items)
    else
      var before := Discounted(items, discounts[..|discounts| - 1]);
      if before.Err? then before
      else
        var (position, pct) := discounts[|discounts| - 1];
        if !(0 < position <= |before.value|) then Err(NoSuchLine)
        else Ok(before.value[position - 1 := before.value[position - 1].(discountPct := Some(pct))])
  }

  function ActionCode(action: Action): int {
    match action
    case Annul => 1
    case CorrectText => 2
    case CorrectAmounts => 3
  }

  function CaseReference(target: nat, reason: (string, Action)): SetFill.Ref {
    SetFill.Ref(None, Some(target), None, None, Some(reason.0), Some(ActionCode(reason.1)))
  }

  function Build(ctx: Context, s: CaseState, docType: int, items: seq<Item>, refs: seq<SetFill.Ref>): Result<ReadDoc, SheetError> {
    if ctx.kind == SETTLEMENT then Ok(ReadDoc(0, s.transferType, [], refs, ctx.counterpart(0)))
    else if docType in EXPORTS then Ok(ReadDoc(docType, s.transferType, items, refs + s.outside, ctx.counterpart(docType)))
    else if s.outside != [] || s.customs then Err(CustomsElsewhere)
    else Ok(ReadDoc(docType, s.transferType, items, refs, ctx.counterpart(docType)))
  }

  function FinishCase(ctx: Context, s: CaseState, earlier: seq<ReadDoc>): Result<ReadDoc, SheetError>
    requires s.target.Some? ==> 0 < s.target.value <= |earlier|
  {
    if s.docType.None? then Err(NoDocument)
    else
      var own := Discounted(ItemsOf(ctx, s.docType.value, s.rows), s.discounts);
      if own.Err? then Err(own.error)
      else if s.target.None? then Build(ctx, s, s.docType.value, own.value, [])
      else if s.reason.None? then Err(NoReason)
      else
        var items := Inherit(ctx.clave, own.value, earlier[s.target.value - 1].items, s.reason.value.1, s.reason.value.0);
        if items.Err? then Err(items.error)
        else Build(ctx, s, s.docType.value, items.value, [CaseReference(s.target.value, s.reason.value)])
  }

  // ---------------------------------------------------------------- the whole set

  lemma {:induction false} TargetIsEarlier(number: nat, lines: seq<Line>)
    ensures var s := ReadLines(number, lines);
            s.Ok? && s.value.target.Some? ==> 0 < s.value.target.value < number
  {
    if lines != [] {
      TargetIsEarlier(number, lines[..|lines| - 1]);
    }
  }

  function ReadCase(ctx: Context, c: Case, earlier: seq<ReadDoc>): Result<ReadDoc, SheetError>
    requires c.number == |earlier| + 1
  {
    TargetIsEarlier(c.number, c.lines);
    var s := ReadLines(c.number, c.lines);
    if s.Err? then Err(s.error) else FinishCase(ctx, s.value, earlier)
  }

  /** The documents of the first cases, numbered from 1 without a gap. */
  function ReadCases(ctx: Context, cases: seq<Case>): (r: Result<seq<ReadDoc>, SheetError>)
    ensures r.Ok? ==> |r.value| == |cases|
  {
    if cases == [] then Ok([])
    else
      var before := ReadCases(ctx, cases[..|cases| - 1]);
      if before.Err? then before
      else if cases[|cases| - 1].number != |cases| then Err(OutOfOrder)
      else
        var doc := ReadCase(ctx, cases[|cases| - 1], before.value);
        if doc.Err? then Err(doc.error) else Ok(before.value + [doc.value])
  }

  function ReadSet(ctx: Context, body: seq<Line>): Result<seq<ReadDoc>, SheetError> {
    var split := SplitCases(ctx.code, body);
    if split.Err? then Err(split.error)
    else if split.value.cases == [] then Err(NoCases)
    else ReadCases(ctx, split.value.cases)
  }

  /** The definition that is stored: data of the case only. */
  function ToDefinition(doc: ReadDoc): SetFill.Doc {
    SetFill.Doc(doc.docType, doc.transferType, None, None, None, doc.receiver,
                if doc.references == [] then None else Some(doc.references), None, map[])
  }
}
