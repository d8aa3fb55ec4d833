/**
 The loops that read a sheet, each against the function that says what it reads, errors included.
 */
module SheetService {
  import opened Wrappers
  import opened SheetReader
  import SetFill

  lemma ErrorPersists(code: string, body: seq<Line>, n: nat)
    requires n <= |body| && SplitCases(code, body[..n]).Err?
    ensures SplitCases(code, body) == SplitCases(code, body[..n])
    decreases |body| - n
  {
    if n == |body| {
      assert body[..n] == body;
    } else {
      assert body[..n + 1][..n] == body[..n];
      ErrorPersists(code, body, n + 1);
    }
  }

  /** Cuts the body of a set into its cases and the text around them. */
  method CutCases(code: string, body: seq<Line>) returns (r: Result<Split, SheetError>)
    ensures r == SplitCases(code, body)
  {
    var cases: seq<Case> := [];
    var free: seq<Line> := [];
    var open := false;
    for i := 0 to |body|
      invariant SplitCases(code, body[..i]) == Ok(Split(cases, free, open))
      invariant open ==> cases != []
    {
      assert body[..i + 1][..i] == body[..i];
      var line := body[i];
      if line.key.CaseHeader? {
        if line.key.code != code {
          ErrorPersists(code, body, i + 1);
          return Err(WrongSet);
        }
        cases := cases + [Case(line.key.number, [])];
        open := true;
        continue;
      }
      if open && line.key == Separator {
        open := false;
        continue;
      }
      if open {
        var last := cases[|cases| - 1];
        cases := cases[|cases| - 1 := last.(lines := last.lines + [line])];
      } else {
        free := free + [line];
      }
    }
    assert body[..|body|] == body;
    r := Ok(Split(cases, free, open));
  }

  lemma LineErrorPersists(number: nat, lines: seq<Line>, n: nat)
    requires n <= |lines| && ReadLines(number, lines[..n]).Err?
    ensures ReadLines(number, lines) == ReadLines(number, lines[..n])
    decreases |lines| - n
  {
    if n == |lines| {
      assert lines[..n] == lines;
    } else {
      assert lines[..n + 1][..n] == lines[..n];
      LineErrorPersists(number, lines, n + 1);
    }
  }

  lemma NextLine(number: nat, lines: seq<Line>, i: nat)
    requires i < |lines| && ReadLines(number, lines[..i]).Ok?
    ensures ReadLines(number, lines[..i + 1]) == ReadLine(number, ReadLines(number, lines[..i]).value, lines[i])
  {
    assert lines[..i + 1][..i] == lines[..i];
    hide ReadLine;
  }

  /** Reads the lines of one case, and stops at the first that cannot be read in its place. */
  method ScanCase(number: nat, lines: seq<Line>) returns (r: Result<CaseState, SheetError>)
    ensures r == ReadLines(number, lines)
  {
    var s := START;
    assert ReadLines(number, lines[..0]) == Ok(START);
    hide ReadLines;
    for i := 0 to |lines|
      invariant ReadLines(number, lines[..i]) == Ok(s)
    {
      NextLine(number, lines, i);
      var key := lines[i].key;
      var error: Option<SheetError> := None;
      if key == Blank {
        s := s.(table := NoTable);
        continue;
      }
      if s.table != NoTable && !EndsWithColon(key) && !key.Reference? && !key.Reason? {
        if lines[i].row.None? {
          error := Some(BadRow);
        } else if s.table == Items {
          s := s.(rows := s.rows + [lines[i].row.value]);
        }
      } else {
        match key {
          case Document(docType) =>
            error := if docType.None? then Some(UnknownDocument) else None;
            s := s.(docType := docType);
          case ItemTable =>
            s := s.(table := Items);
          case CommissionTable =>
            s := s.(table := Commissions);
          case Reference(target) =>
            error := if target.None? then Some(BadReference) else if !(0 < target.value < number) then Some(NotEarlier) else None;
            s := s.(target := target);
          case Reason(text, action) =>
            s := s.(reason := Some((text, action)));
          case OutsideReference(outside) =>
            if outside.None? {
              error := Some(UnknownOutside);
            } else {
              s := s.(outside := s.outside + [OutsideRef(outside.value)]);
            }
          case TransferReason(transferType) =>
            error := if transferType.None? then Some(UnknownTransfer) else None;
            s := s.(transferType := transferType);
          case LineDiscount(position, pct) =>
            s := s.(discounts := s.discounts + [(position, pct)]);
          case Detail(_, customs) =>
            s := s.(customs := s.customs || customs);
          case _ =>
            error := Some(Unrecognised);
        }
      }
      if error.Some? {
        LineErrorPersists(number, lines, i + 1);
        return Err(error.value);
      }
    }
    assert lines[..|lines|] == lines;
    r := Ok(s);
  }

  lemma MissingPersists(clave: string -> string, items: seq<Item>, originals: seq<Item>, n: nat)
    requires n <= |items| && CompleteAll(clave, items[..n], originals).Err?
    ensures CompleteAll(clave, items, originals) == Err(NotInOriginal)
    decreases |items| - n
  {
    if n == |items| {
      assert items[..n] == items;
      OnlyMissing(clave, items, originals);
    } else {
      assert items[..n + 1][..n] == items[..n];
      MissingPersists(clave, items, originals, n + 1);
    }
  }

  lemma {:induction false} OnlyMissing(clave: string -> string, items: seq<Item>, originals: seq<Item>)
    ensures CompleteAll(clave, items, originals).Err? ==> CompleteAll(clave, items, originals) == Err(NotInOriginal)
  {
    if items != [] {
      OnlyMissing(clave, items[..|items| - 1], originals);
    }
  }

  /** What a note takes from the document it modifies. */
  method TakeFrom(clave: string -> string, items: seq<Item>, originals: seq<Item>, action: Action, text: string)
    returns (r: Result<seq<Item>, SheetError>)
    ensures r == Inherit(clave, items, originals, action, text)
  {
    if items == [] {
      if action == Annul {
        return Ok(originals);
      }
      if action == CorrectText {
        var line := Item(text, Some("0"), Some("0"), None, None, None, map[]);
        if AllExempt(originals) {
          line := line.(exempt := Some(true));
        }
        return Ok([line]);
      }
      return Err(NothingToModify);
    }
    var taken := [];
    for i := 0 to |items|
      invariant CompleteAll(clave, items[..i], originals) == Ok(taken)
    {
      assert items[..i + 1][..i] == items[..i];
      var base := FindItem(clave, originals, items[i].name);
      if base.None? {
        MissingPersists(clave, items, originals, i + 1);
        return Err(NotInOriginal);
      }
      var item := items[i];
      if item.quantity.Some? && item.unit.None? {
        item := item.(unit := base.value.unit);
      }
      if item.quantity.None? {
        item := item.(quantity := base.value.quantity);
      }
      if item.unitPrice.None? {
        item := item.(unitPrice := base.value.unitPrice);
      }
      if item.discountPct.None? {
        item := item.(discountPct := base.value.discountPct);
      }
      if item.exempt.None? {
        item := item.(exempt := base.value.exempt);
      }
      taken := taken + [item];
    }
    assert items[..|items|] == items;
    r := Ok(taken);
  }

  lemma CaseErrorPersists(ctx: Context, cases: seq<Case>, n: nat)
    requires n <= |cases| && ReadCases(ctx, cases[..n]).Err?
    ensures ReadCases(ctx, cases) == ReadCases(ctx, cases[..n])
    decreases |cases| - n
  {
    hide ReadCase;
    if n == |cases| {
      assert cases[..n] == cases;
    } else {
      assert cases[..n + 1][..n] == cases[..n];
      CaseErrorPersists(ctx, cases, n + 1);
    }
  }

  /** Every document of a set, or what is wrong with the sheet. */
  method ReadDocuments(ctx: Context, body: seq<Line>) returns (r: Result<seq<ReadDoc>, SheetError>)
    ensures r == ReadSet(ctx, body)
  {
    hide ReadLines, FinishCase;
    var split := CutCases(ctx.code, body);
    if split.Err? {
      return Err(split.error);
    }
    var cases := split.value.cases;
    if cases == [] {
      return Err(NoCases);
    }
    var docs := [];
    for i := 0 to |cases|
      invariant ReadCases(ctx, cases[..i]) == Ok(docs)
    {
      assert cases[..i + 1][..i] == cases[..i];
      if cases[i].number != i + 1 {
        CaseErrorPersists(ctx, cases, i + 1);
        return Err(OutOfOrder);
      }
      var s := ScanCase(cases[i].number, cases[i].lines);
      TargetIsEarlier(cases[i].number, cases[i].lines);
      if s.Err? {
        CaseErrorPersists(ctx, cases, i + 1);
        return Err(s.error);
      }
      var doc := FinishCase(ctx, s.value, docs);
      if doc.Err? {
        CaseErrorPersists(ctx, cases, i + 1);
        return Err(doc.error);
      }
      docs := docs + [doc.value];
    }
    assert cases[..|cases|] == cases;
    r := Ok(docs);
  }
}
