/**
 Book lines are declared in pesos. A foreign line is converted amount by amount, and a line that
 closed before the conversion closes after it.
 */
module BookLine {
  import opened Wrappers

  datatype Field =
    | Exempt | Net | Vat | Total | CommonUseVat | RetainedVat | NonBillable
    | CommissionNet | CommissionExempt | CommissionVat

  const MONEY_FIELDS :=
    [Exempt, Net, Vat, Total, CommonUseVat, RetainedVat, NonBillable, CommissionNet, CommissionExempt, CommissionVat]

  type Tax = (int, real)

  /** A line as requested: every amount, the VAT that cannot be recovered by code, other taxes, and
      the currency with its rate in pesos. */
  datatype Line = Line(
    amounts: map<Field, real>, nonRecoverable: seq<(int, real)>, otherTaxes: seq<Tax>,
    currency: Option<string>, rate: Option<real>)

  datatype Pesos = Pesos(amounts: map<Field, int>, nonRecoverable: seq<(int, int)>, otherTaxes: seq<Tax>)

  ghost predicate Complete<T>(amounts: map<Field, T>) {
    forall f: Field :: f in amounts
  }

  /** Half away from zero, the way the SII rounds. */
  function RoundHalfUp(x: real): int {
    if x >= 0.0 then (x + 0.5).Floor else -((0.5 - x).Floor)
  }

  /** What an amount is worth. */
  function Worth(amount: real, rate: real): real {
    amount * rate
  }

  function ToClp(amount: real, rate: real): int {
    RoundHalfUp(Worth(amount, rate))
  }

  /** Toward zero. */
  function Truncate(x: real): int {
    if x >= 0.0 then x.Floor else -((-x).Floor)
  }

  predicate IsWhole(x: real) {
    x == x.Floor as real
  }

  predicate InCurrency(line: Line) {
    line.currency.Some? && line.currency.value != ""
  }

  /** What a request must meet: a foreign line states its rate and no other taxes, a rate comes
      with its currency, and amounts in pesos are whole. */
  ghost predicate Accepted(line: Line) {
    && Complete(line.amounts)
    && (InCurrency(line) ==> line.otherTaxes == [] && line.rate.Some?)
    && (line.rate.Some? ==> InCurrency(line) && line.rate.value > 0.0)
    && (!InCurrency(line) ==>
          (forall f <- line.amounts :: IsWhole(line.amounts[f])) && forall e <- line.nonRecoverable :: IsWhole(e.1))
  }

  ghost predicate Closes(amounts: map<Field, real>)
    requires Complete(amounts)
  {
    amounts[Total] == amounts[Exempt] + amounts[Net] + amounts[Vat]
  }

  ghost predicate ClosesInPesos(amounts: map<Field, int>)
    requires Complete(amounts)
  {
    amounts[Total] == amounts[Exempt] + amounts[Net] + amounts[Vat]
  }

  /** The pesos of one amount. */
  function PesosOf(line: Line, amount: real): int {
    if InCurrency(line) && line.rate.Some? then ToClp(amount, line.rate.value) else Truncate(amount)
  }

  /** What the conversion of a line is: every amount in pesos, and the total of a foreign line that
      closed as the sum of its converted parts. */
  ghost predicate IsConversion(line: Line, pesos: Pesos)
    requires Complete(line.amounts)
  {
    var rewritten := InCurrency(line) && line.rate.Some? && Closes(line.amounts);
    && Complete(pesos.amounts)
    && (forall f: Field :: f != Total || !rewritten ==> pesos.amounts[f] == PesosOf(line, line.amounts[f]))
    && (rewritten ==> ClosesInPesos(pesos.amounts))
    && |pesos.nonRecoverable| == |line.nonRecoverable|
    && (forall i :: 0 <= i < |line.nonRecoverable| ==>
          pesos.nonRecoverable[i] == (line.nonRecoverable[i].0, PesosOf(line, line.nonRecoverable[i].1)))
    && pesos.otherTaxes == line.otherTaxes
  }

  lemma AllFields()
    ensures forall f: Field :: f in MONEY_FIELDS
  {
    forall f: Field ensures f in MONEY_FIELDS {
      match f
      case Exempt => assert MONEY_FIELDS[0] == f;
      case Net => assert MONEY_FIELDS[1] == f;
      case Vat => assert MONEY_FIELDS[2] == f;
      case Total => assert MONEY_FIELDS[3] == f;
      case CommonUseVat => assert MONEY_FIELDS[4] == f;
      case RetainedVat => assert MONEY_FIELDS[5] == f;
      case NonBillable => assert MONEY_FIELDS[6] == f;
      case CommissionNet => assert MONEY_FIELDS[7] == f;
      case CommissionExempt => assert MONEY_FIELDS[8] == f;
      case CommissionVat => assert MONEY_FIELDS[9] == f;
    }
  }

  /** Converts a line, field by field. */
  method Convert(line: Line) returns (pesos: Pesos)
    requires Complete(line.amounts)
    ensures IsConversion(line, pesos)
  {
    hide RoundHalfUp, Truncate;
    AllFields();
    var amounts: map<Field, int> := map[];
    var nonRecoverable: seq<(int, int)> := [];
    var foreign := InCurrency(line) && line.rate.Some?;
    var closed := line.amounts[Total] == line.amounts[Exempt] + line.amounts[Net] + line.amounts[Vat];
    for i := 0 to |MONEY_FIELDS|
      invariant forall f :: f in MONEY_FIELDS[..i] ==> f in amounts && amounts[f] == PesosOf(line, line.amounts[f])
    {
      var f := MONEY_FIELDS[i];
      amounts := amounts[f := if foreign then ToClp(line.amounts[f], line.rate.value) else Truncate(line.amounts[f])];
    }
    assert MONEY_FIELDS[..|MONEY_FIELDS|] == MONEY_FIELDS;
    assert forall f: Field :: f in amounts && amounts[f] == PesosOf(line, line.amounts[f]);
    for i := 0 to |line.nonRecoverable|
      invariant |nonRecoverable| == i
      invariant forall j :: 0 <= j < i ==>
                  nonRecoverable[j] == (line.nonRecoverable[j].0, PesosOf(line, line.nonRecoverable[j].1))
    {
      var (code, amount) := line.nonRecoverable[i];
      nonRecoverable := nonRecoverable + [(code, if foreign then ToClp(amount, line.rate.value) else Truncate(amount))];
    }
    if foreign && closed {
      amounts := amounts[Total := amounts[Exempt] + amounts[Net] + amounts[Vat]];
    }
    pesos := Pesos(amounts, nonRecoverable, line.otherTaxes);
  }

  // ---------------------------------------------------------------- rounding

  function Abs(x: real): real {
    if x < 0.0 then -x else x
  }

  /** Rounding errs by at most half a peso, upward in size on a tie, and nothing else does. */
  lemma RoundingExactly(x: real, n: int)
    ensures n == RoundHalfUp(x) <==>
              Abs(n as real - x) < 0.5 || (Abs(n as real - x) == 0.5 && Abs(n as real) > Abs(x))
  {
  }

  /** Whole amounts are not changed by either reading. */
  lemma WholeAmountsStay(x: real)
    requires IsWhole(x)
    ensures RoundHalfUp(x) as real == x && Truncate(x) as real == x
  {
    var n := x.Floor;
    RoundingExactly(x, n);
    FloorOfWhole(n);
    FloorOfWhole(-n);
    assert -x == (-n) as real;
    hide RoundHalfUp;
  }

  lemma FloorOfWhole(n: int)
    ensures (n as real).Floor == n
  {
  }

  lemma ThreeRoundings(x: real, y: real, z: real)
    ensures var sum, direct := RoundHalfUp(x) + RoundHalfUp(y) + RoundHalfUp(z), RoundHalfUp(x + y + z);
            && -1 <= sum - direct <= 1
            && Abs(sum as real - (x + y + z)) <= 1.5
  {
    RoundingExactly(x, RoundHalfUp(x));
    RoundingExactly(y, RoundHalfUp(y));
    RoundingExactly(z, RoundHalfUp(z));
    RoundingExactly(x + y + z, RoundHalfUp(x + y + z));
    hide RoundHalfUp;
  }

  // ---------------------------------------------------------------- lines

  /** A foreign line closes after the conversion when it closed before; otherwise only if the
      separate roundings happen to add up. */
  lemma LinesStayClosedExactly(line: Line, pesos: Pesos)
    requires Accepted(line) && InCurrency(line) && IsConversion(line, pesos)
    ensures var rate, a := line.rate.value, line.amounts;
            ClosesInPesos(pesos.amounts) <==>
              Closes(a) || ToClp(a[Total], rate) == ToClp(a[Exempt], rate) + ToClp(a[Net], rate) + ToClp(a[Vat], rate)
  {
  }

  lemma ClosedTotal(e: real, n: real, v: real, rate: real)
    ensures var sum := ToClp(e, rate) + ToClp(n, rate) + ToClp(v, rate);
            -1 <= sum - ToClp(e + n + v, rate) <= 1 && Abs(sum as real - Worth(e + n + v, rate)) <= 1.5
  {
    assert Worth(e + n + v, rate) == Worth(e, rate) + Worth(n, rate) + Worth(v, rate);
    ThreeRoundings(Worth(e, rate), Worth(n, rate), Worth(v, rate));
    hide RoundHalfUp, Abs, Worth;
  }

  lemma OneRounding(amount: real, rate: real)
    ensures Abs(ToClp(amount, rate) as real - Worth(amount, rate)) <= 0.5
  {
    RoundingExactly(Worth(amount, rate), ToClp(amount, rate));
    hide RoundHalfUp, Worth;
  }

  /** The total of a converted line is within one peso of converting it directly, whatever the
      signs, and within a peso and a half of its exact value. */
  lemma TotalWithinOnePeso(line: Line, pesos: Pesos)
    requires Accepted(line) && InCurrency(line) && IsConversion(line, pesos)
    ensures -1 <= pesos.amounts[Total] - ToClp(line.amounts[Total], line.rate.value) <= 1
    ensures Abs(pesos.amounts[Total] as real - Worth(line.amounts[Total], line.rate.value)) <= 1.5
  {
    var rate, a := line.rate.value, line.amounts;
    OneRounding(a[Total], rate);
    ClosedTotal(a[Exempt], a[Net], a[Vat], rate);
    hide ToClp, Worth;
  }

  /** One peso is really lost and gained: the bound cannot be made smaller. */
  lemma OnePesoIsReached()
    ensures var half := 0.5;
            RoundHalfUp(half) + RoundHalfUp(half) + RoundHalfUp(half) - RoundHalfUp(half + half + half) == 1
    ensures var less := 0.4;
            RoundHalfUp(less) + RoundHalfUp(less) + RoundHalfUp(less) - RoundHalfUp(less + less + less) == -1
  {
  }

  /** Every other amount of a converted line is within half a peso of its exact value, and nothing
      is left in the foreign currency. */
  lemma EveryAmountIsConverted(line: Line, pesos: Pesos, f: Field)
    requires Accepted(line) && InCurrency(line) && IsConversion(line, pesos)
    ensures f != Total ==> Abs(pesos.amounts[f] as real - Worth(line.amounts[f], line.rate.value)) <= 0.5
    ensures forall i :: 0 <= i < |line.nonRecoverable| ==>
              Abs(pesos.nonRecoverable[i].1 as real - Worth(line.nonRecoverable[i].1, line.rate.value)) <= 0.5
    ensures pesos.otherTaxes == []
  {
    OneRounding(line.amounts[f], line.rate.value);
    forall i | 0 <= i < |line.nonRecoverable|
      ensures Abs(pesos.nonRecoverable[i].1 as real - Worth(line.nonRecoverable[i].1, line.rate.value)) <= 0.5
    {
      OneRounding(line.nonRecoverable[i].1, line.rate.value);
    }
    hide ToClp, Worth;
  }

  /** What an amount is declared as: at the rate, to the nearest peso and away from zero on a tie, when the line
      names a currency and its rate; and otherwise without its fraction. */
  lemma AmountsExactly(line: Line, amount: real, n: int)
    ensures line.currency != None && line.currency != Some("") && line.rate != None ==>
              var exact := amount * line.rate.value;
              (n == PesosOf(line, amount) <==>
               Abs(n as real - exact) < 0.5 || (Abs(n as real - exact) == 0.5 && Abs(n as real) > Abs(exact)))
    ensures line.currency == None || line.currency == Some("") || line.rate == None ==>
              (n == PesosOf(line, amount) <==>
               if amount >= 0.0 then n as real <= amount < n as real + 1.0 else n as real - 1.0 < amount <= n as real)
  {
    if line.rate.Some? {
      RoundingExactly(amount * line.rate.value, n);
    }
    hide RoundHalfUp, Abs;
  }

  /** Every amount is declared so, but for the total of a line in a currency that is the sum of its exempt
      and net amounts and its VAT: that is declared as the sum of those three as declared. */
  lemma AmountsAreConverted(line: Line, pesos: Pesos, f: Field)
    requires Complete(line.amounts) && IsConversion(line, pesos)
    ensures var a, done := line.amounts, pesos.amounts;
            var closed := InCurrency(line) && line.rate != None && a[Total] == a[Exempt] + a[Net] + a[Vat];
            done[f] == if f == Total && closed then PesosOf(line, a[Exempt]) + PesosOf(line, a[Net]) + PesosOf(line, a[Vat])
                       else PesosOf(line, a[f])
    ensures |pesos.nonRecoverable| == |line.nonRecoverable|
    ensures forall i :: 0 <= i < |line.nonRecoverable| ==>
              pesos.nonRecoverable[i] == (line.nonRecoverable[i].0, PesosOf(line, line.nonRecoverable[i].1))
    ensures pesos.otherTaxes == line.otherTaxes
  {
    hide PesosOf;
  }

  /** A line already in pesos is declared as it came. */
  lemma PesosStay(line: Line, pesos: Pesos)
    requires Accepted(line) && !InCurrency(line) && IsConversion(line, pesos)
    ensures forall f: Field :: pesos.amounts[f] as real == line.amounts[f]
    ensures ClosesInPesos(pesos.amounts) <==> Closes(line.amounts)
  {
    forall f: Field ensures pesos.amounts[f] as real == line.amounts[f] {
      WholeAmountsStay(line.amounts[f]);
    }
  }

  // ---------------------------------------------------------------- books

  /** A book: each line beside its conversion. */
  ghost predicate IsBook(lines: seq<Line>, book: seq<Pesos>) {
    |book| == |lines| && forall i :: 0 <= i < |lines| ==> Accepted(lines[i]) && IsConversion(lines[i], book[i])
  }

  /** The exact value of the total of a line. */
  ghost function ExactTotal(line: Line): real
    requires Accepted(line)
  {
    if InCurrency(line) then Worth(line.amounts[Total], line.rate.value) else line.amounts[Total]
  }

  /** By how much the totals a book declares exceed their exact value. */
  ghost function Drift(lines: seq<Line>, book: seq<Pesos>): real
    requires IsBook(lines, book)
  {
    if lines == [] then 0.0
    else
      var n := |lines| - 1;
      Drift(lines[..n], book[..n]) + (book[n].amounts[Total] as real - ExactTotal(lines[n]))
  }

  /** How many lines of a book are foreign. */
  function Foreign(lines: seq<Line>): nat {
    if lines == [] then 0 else Foreign(lines[..|lines| - 1]) + if InCurrency(lines[|lines| - 1]) then 1 else 0
  }

  lemma ForeignLineDrift(line: Line, pesos: Pesos)
    requires Accepted(line) && IsConversion(line, pesos) && InCurrency(line)
    ensures Abs(pesos.amounts[Total] as real - ExactTotal(line)) <= 1.5
  {
    hide IsConversion, Accepted, Worth;
    TotalWithinOnePeso(line, pesos);
  }

  lemma PesoLineDrift(line: Line, pesos: Pesos)
    requires Accepted(line) && IsConversion(line, pesos) && !InCurrency(line)
    ensures pesos.amounts[Total] as real == ExactTotal(line)
  {
    hide IsConversion, Accepted, InCurrency;
    PesosStay(line, pesos);
  }

  /** The total a book declares drifts from its exact value by at most a peso and a half for each
      foreign line. */
  lemma {:induction false} BooksDriftLittle(lines: seq<Line>, book: seq<Pesos>)
    requires IsBook(lines, book)
    ensures Abs(Drift(lines, book)) <= 1.5 * Foreign(lines) as real
  {
    if lines != [] {
      var n := |lines| - 1;
      BooksDriftLittle(lines[..n], book[..n]);
      if InCurrency(lines[n]) {
        ForeignLineDrift(lines[n], book[n]);
      } else {
        PesoLineDrift(lines[n], book[n]);
      }
      hide IsConversion, Accepted, ExactTotal, InCurrency, Worth;
    }
  }

  /** What a book declares in all of one amount. */
  ghost function Declared(lines: seq<Line>, book: seq<Pesos>, f: Field): int
    requires IsBook(lines, book)
  {
    if lines == [] then 0 else Declared(lines[..|lines| - 1], book[..|lines| - 1], f) + book[|lines| - 1].amounts[f]
  }

  lemma LineStaysClosed(line: Line, pesos: Pesos)
    requires Accepted(line) && IsConversion(line, pesos) && Closes(line.amounts)
    ensures ClosesInPesos(pesos.amounts)
  {
    if InCurrency(line) {
      LinesStayClosedExactly(line, pesos);
    } else {
      PesosStay(line, pesos);
    }
  }

  /** A book whose lines close, foreign ones in their own currency, adds up in pesos: its totals are
      its exempt, net and tax amounts together, to the peso. */
  lemma {:induction false} ClosedBooksAddUp(lines: seq<Line>, book: seq<Pesos>)
    requires IsBook(lines, book) && forall i :: 0 <= i < |lines| ==> Closes(lines[i].amounts)
    ensures Declared(lines, book, Total) ==
            Declared(lines, book, Exempt) + Declared(lines, book, Net) + Declared(lines, book, Vat)
  {
    if lines != [] {
      var n := |lines| - 1;
      ClosedBooksAddUp(lines[..n], book[..n]);
      LineStaysClosed(lines[n], book[n]);
      hide IsConversion, Accepted, Closes;
    }
  }
}
