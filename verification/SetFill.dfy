/**
 Set definitions keep only the data of the case; whatever depends on the taxpayer or on the day is
 removed when a definition is stored and put in when it is issued.
 */
module SetFill {
  import opened Wrappers
  import Text

  /** The fields of a record that nothing here reads. */
  type Fields = map<string, string>

  const SII_RUT := "60803000-K"
  const OWN_CUSTOMER_DOCS: set<int> := {33, 34, 52}
  const NATIONAL_NOTES: set<int> := {56, 61}
  const DISPATCH_GUIDE := 52
  const INTERNAL_TRANSFER := 5
  const ACTIVITY_LIMIT := 40
  const ADDRESS_LIMIT := 70
  const WITHOUT_CASE_REFERENCE: set<string> := {"simulacion"}
  const GENERATED_BOOKS: set<string> := {"libro_ventas", "libro_guias"}

  datatype Endpoint = Documents | Mixed | Receipts | Books | Other

  /** Someone a document is addressed to; NOBODY is the empty record. */
  datatype Party = Party(
    rut: Option<string>, businessName: string, activity: string, address: string, commune: string, city: string,
    rest: Fields)

  const NOBODY := Party(None, "", "", "", "", "", map[])

  datatype Issuer = Issuer(
    rut: string, businessName: string, activity: string, address: string, commune: string, city: string,
    rest: Fields)

  /** A reference to another document of the lot (`batchIndex`, from 1) or to an outside one. */
  datatype Ref = Ref(
    docType: Option<string>, batchIndex: Option<int>, date: Option<string>, folio: Option<string>,
    reason: Option<string>, code: Option<int>)

  datatype Transport = Transport(address: string, commune: string, rest: Fields)

  datatype Doc = Doc(
    docType: int, transferType: Option<int>, issuer: Option<Issuer>, issueDate: Option<string>, caseName: Option<string>,
    receiver: Option<Party>, references: Option<seq<Ref>>, transport: Option<Transport>, rest: Fields)

  datatype Receipt = Receipt(issuer: Option<Issuer>, issueDate: Option<string>, rest: Fields)

  /** A book line; the sales and guide books carry the day of their document. */
  datatype Line = Line(date: Option<string>, rest: Fields)

  /** One definition. A list that is missing is an empty one. */
  datatype Payload = Payload(
    documents: seq<Doc>, receipts: seq<Receipt>, groups: seq<Group>, lines: seq<Line>, period: Option<string>,
    notificationFolio: Option<string>, voidedCases: Option<Fields>, rest: Fields)

  datatype Group = Group(endpoint: Endpoint, payload: Payload, rest: Fields)

  const EMPTY := Payload([], [], [], [], None, None, None, map[])

  // ---------------------------------------------------------------- what is removed

  predicate IsCaseRef(r: Ref) {
    r.docType == Some("SET")
  }

  /** An outside reference loses its date. */
  function Undated(r: Ref): Ref {
    if r.batchIndex.None? then r.(date := None) else r
  }

  function StripRefs(refs: seq<Ref>): seq<Ref> {
    if refs == [] then []
    else
      var last := refs[|refs| - 1];
      StripRefs(refs[..|refs| - 1]) + if IsCaseRef(last) then [] else [Undated(last)]
  }

  function RefsOf(doc: Doc): seq<Ref> {
    if doc.references.Some? then doc.references.value else []
  }

  function StripDoc(doc: Doc): Doc {
    var refs := StripRefs(RefsOf(doc));
    doc.(issuer := None, issueDate := None, references := if refs == [] then None else Some(refs))
  }

  function StripReceipt(receipt: Receipt): Receipt {
    receipt.(issuer := None, issueDate := None)
  }

  function MapSeq<A, B>(f: A -> B, xs: seq<A>): (r: seq<B>)
    ensures |r| == |xs| && forall i :: 0 <= i < |xs| ==> r[i] == f(xs[i])
  {
    seq(|xs|, i requires 0 <= i < |xs| => f(xs[i]))
  }

  function Strip(endpoint: Endpoint, kind: string, p: Payload): Payload
    decreases p, 1
  {
    match endpoint
    case Mixed => p.(groups := StripGroups(kind, p.groups))
    case Documents => p.(documents := MapSeq(StripDoc, p.documents))
    case Receipts => p.(receipts := MapSeq(StripReceipt, p.receipts))
    case Books => p.(period := None, notificationFolio := None, lines := if kind in GENERATED_BOOKS then [] else p.lines)
    case Other => p
  }

  function StripGroups(kind: string, groups: seq<Group>): (r: seq<Group>)
    ensures |r| == |groups|
    decreases groups, 0
  {
    if groups == [] then [] else [StripGroup(kind, groups[0])] + StripGroups(kind, groups[1..])
  }

  /** A group keeps its endpoint and its definition, nothing else. */
  function StripGroup(kind: string, group: Group): Group
    decreases group, 2
  {
    Group(group.endpoint, Strip(group.endpoint, kind, group.payload), map[])
  }

  // ---------------------------------------------------------------- what is put in

  /** What the system knows when it issues: the taxpayer, the set, the day, and how the lines of a
      generated book are drawn from accepted documents. */
  datatype Context = Context(
    issuer: Issuer, receivers: seq<Party>, kind: string, code: string, codeIsNumeral: bool, today: string, month: string,
    bookLines: Option<Fields> -> seq<Line>)

  function CaseReason(ctx: Context, caseName: Option<string>, n: nat): string {
    if caseName.Some? && caseName.value != "" then "CASO " + caseName.value
    else "CASO " + ctx.code + "-" + Text.Decimal(n)
  }

  predicate RefersToCase(ctx: Context) {
    ctx.kind !in WITHOUT_CASE_REFERENCE
  }

  function CaseRefs(ctx: Context, caseName: Option<string>, n: nat): seq<Ref> {
    if !RefersToCase(ctx) then []
    else [Ref(Some("SET"), None, Some(ctx.today), Some("0"), Some(CaseReason(ctx, caseName, n)), None)]
  }

  function Dated(today: string, r: Ref): Ref {
    if r.batchIndex.None? then r.(date := Some(today)) else r
  }

  function DateRefs(today: string, refs: seq<Ref>): (r: seq<Ref>)
    ensures |r| == |refs| && forall i :: 0 <= i < |refs| ==> r[i] == Dated(today, refs[i])
  {
    seq(|refs|, i requires 0 <= i < |refs| => Dated(today, refs[i]))
  }

  /** The `n`-th document of a stripped lot, from 1, before it gets a receiver. */
  function FillDoc(ctx: Context, doc: Doc, n: nat): Doc {
    doc.(issuer := Some(ctx.issuer), issueDate := Some(ctx.today), caseName := None,
         references := Some(CaseRefs(ctx, doc.caseName, n) + DateRefs(ctx.today, RefsOf(doc))))
  }

  function FillDocs(ctx: Context, docs: seq<Doc>): (r: seq<Doc>)
    ensures |r| == |docs| && forall i :: 0 <= i < |docs| ==> r[i] == FillDoc(ctx, docs[i], i + 1)
  {
    seq(|docs|, i requires 0 <= i < |docs| => FillDoc(ctx, docs[i], i + 1))
  }

  function Truncate(s: string, limit: nat): string {
    if |s| <= limit then s else s[..limit]
  }

  /** Test receivers without a RUT are of no use. */
  predicate HasRut(party: Party) {
    party.rut.Some? && party.rut.value != ""
  }

  function UsableReceivers(receivers: seq<Party>): (r: seq<Party>)
    ensures forall p <- r :: HasRut(p) && p in receivers
  {
    if receivers == [] then []
    else
      var last := receivers[|receivers| - 1];
      UsableReceivers(receivers[..|receivers| - 1]) + if HasRut(last) then [last] else []
  }

  function ReceiverOf(doc: Doc): Party {
    if doc.receiver.Some? then doc.receiver.value else NOBODY
  }

  /** No receiver of its own: none at all, or the SII's, which definitions carry as a filler. */
  predicate LacksReceiver(doc: Doc) {
    ReceiverOf(doc).rut == None || ReceiverOf(doc).rut == Some(SII_RUT)
  }

  predicate IsInternalTransfer(doc: Doc) {
    doc.docType == DISPATCH_GUIDE && doc.transferType == Some(INTERNAL_TRANSFER)
  }

  predicate NeedsCustomer(doc: Doc) {
    !IsInternalTransfer(doc) && doc.docType in OWN_CUSTOMER_DOCS && LacksReceiver(doc)
  }

  predicate Inherits(doc: Doc) {
    doc.docType in NATIONAL_NOTES && LacksReceiver(doc)
  }

  /** The first reference to a document of the lot, and its position there; 0 is none. */
  function FirstLotRef(refs: seq<Ref>): int {
    if refs == [] then 0
    else if refs[0].batchIndex.Some? && refs[0].batchIndex.value != 0 then refs[0].batchIndex.value
    else FirstLotRef(refs[1..])
  }

  function IssuerAsReceiver(issuer: Issuer): Party {
    Party(Some(issuer.rut), issuer.businessName, Truncate(issuer.activity, ACTIVITY_LIMIT), issuer.address,
          issuer.commune, issuer.city, map[])
  }

  function OwnWarehouse(issuer: Issuer): Transport {
    Transport(Truncate("BODEGA 2, " + issuer.address, ADDRESS_LIMIT), issuer.commune, map[])
  }

  /** The pass over the lot: the documents so far, how many needed a test receiver, how many got one. */
  datatype Pass = Pass(docs: seq<Doc>, needed: nat, next: nat)

  function Visit(issuer: Issuer, usable: seq<Party>, s: Pass, i: nat): (r: Pass)
    requires i < |s.docs|
    ensures |r.docs| == |s.docs|
  {
    var doc := s.docs[i];
    if IsInternalTransfer(doc) then
      s.(docs := s.docs[i := doc.(receiver := Some(IssuerAsReceiver(issuer)),
                                  transport := if doc.transport.Some? then doc.transport else Some(OwnWarehouse(issuer)))])
    else if NeedsCustomer(doc) then
      if usable == [] then s.(needed := s.needed + 1)
      else Pass(s.docs[i := doc.(receiver := Some(usable[s.next % |usable|]))], s.needed + 1, s.next + 1)
    else if Inherits(doc) then
      var target := FirstLotRef(RefsOf(doc));
      if 0 < target <= |s.docs| then s.(docs := s.docs[i := doc.(receiver := Some(ReceiverOf(s.docs[target - 1])))]) else s
    else s
  }

  function VisitFirst(issuer: Issuer, usable: seq<Party>, docs: seq<Doc>, n: nat): (r: Pass)
    requires n <= |docs|
    ensures |r.docs| == |docs|
  {
    if n == 0 then Pass(docs, 0, 0) else Visit(issuer, usable, VisitFirst(issuer, usable, docs, n - 1), n - 1)
  }

  function Receivers(issuer: Issuer, receivers: seq<Party>, docs: seq<Doc>): (r: Pass)
    ensures |r.docs| == |docs|
  {
    VisitFirst(issuer, UsableReceivers(receivers), docs, |docs|)
  }

  function FillReceipt(ctx: Context, receipt: Receipt): Receipt {
    receipt.(issuer := Some(ctx.issuer), issueDate := Some(ctx.today))
  }

  function DatedLine(today: string, line: Line): Line {
    if line.date.None? then line.(date := Some(today)) else line
  }

  /** The month of an ISO date. */
  function MonthOf(date: string): string {
    Truncate(date, 7)
  }

  predicate HasDate(line: Line) {
    line.date.Some? && line.date.value != ""
  }

  /** The latest month among the lines that have a date. */
  function LatestMonth(lines: seq<Line>): Option<string> {
    if lines == [] then None
    else
      var last, before := lines[|lines| - 1], LatestMonth(lines[..|lines| - 1]);
      if !HasDate(last) || (before.Some? && Text.LexLeq(MonthOf(last.date.value), before.value)) then before
      else Some(MonthOf(last.date.value))
  }

  /** A stripped book: the lines of a generated one, and the month they belong to. */
  function FillBook(ctx: Context, p: Payload): Payload {
    var folio := if ctx.codeIsNumeral then Some(ctx.code) else p.notificationFolio;
    if ctx.kind in GENERATED_BOOKS then
      var lines := ctx.bookLines(p.voidedCases);
      var month := LatestMonth(lines);
      p.(period := Some(if month.Some? then month.value else ctx.month), notificationFolio := folio, voidedCases := None,
         lines := lines)
    else
      p.(period := Some(ctx.month), notificationFolio := folio, voidedCases := None,
         lines := MapSeq((l: Line) => DatedLine(ctx.today, l), p.lines))
  }

  function Fill(ctx: Context, endpoint: Endpoint, p: Payload): Payload
    decreases p, 1
  {
    match endpoint
    case Mixed => EMPTY.(groups := FillGroups(ctx, p.groups))
    case Documents =>
      var stripped := Strip(endpoint, ctx.kind, p);
      stripped.(documents := Receivers(ctx.issuer, ctx.receivers, FillDocs(ctx, stripped.documents)).docs)
    case Receipts =>
      var stripped := Strip(endpoint, ctx.kind, p);
      stripped.(receipts := MapSeq((r: Receipt) => FillReceipt(ctx, r), stripped.receipts))
    case Books => FillBook(ctx, Strip(endpoint, ctx.kind, p))
    case Other => p
  }

  function FillGroups(ctx: Context, groups: seq<Group>): (r: seq<Group>)
    ensures |r| == |groups|
    decreases groups, 0
  {
    if groups == [] then [] else [FillGroup(ctx, groups[0])] + FillGroups(ctx, groups[1..])
  }

  function FillGroup(ctx: Context, group: Group): Group
    decreases group, 2
  {
    Group(group.endpoint, Fill(ctx, group.endpoint, group.payload), map[])
  }
}
