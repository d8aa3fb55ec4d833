/**
 Reconciling what the SII has registered with what the customer's own system has: three groups, two
 totals, and an exact account of the difference between the totals.
 */
module Reconcile {
  import Sets

  datatype Doc = Doc(docType: int, folio: int, rut: string, date: int, exempt: int, net: int, vat: int, total: int)

  /** What identifies a document: folios repeat among issuers. */
  datatype Key = Key(docType: int, rut: string, folio: int)

  /** How RUTs are normalised. */
  type Norm = string -> string

  function KeyOf(norm: Norm, d: Doc): Key {
    Key(d.docType, norm(d.rut), d.folio)
  }

  /** One side by key; a repeated key keeps its last document. */
  function Index(norm: Norm, docs: seq<Doc>): map<Key, Doc> {
    if docs == [] then map[]
    else
      var last := docs[|docs| - 1];
      Index(norm, docs[..|docs| - 1])[KeyOf(norm, last) := last]
  }

  datatype Field = Exempt | Net | Vat | Total | Date

  const FIELDS := [Exempt, Net, Vat, Total, Date]

  function Value(d: Doc, f: Field): int {
    match f
    case Exempt => d.exempt
    case Net => d.net
    case Vat => d.vat
    case Total => d.total
    case Date => d.date
  }

  predicate Agree(a: Doc, b: Doc) {
    forall f: Field :: Value(a, f) == Value(b, f)
  }

  /** What is shown of a document only one side has. */
  datatype Brief = Brief(docType: int, folio: int, rut: string, date: int, total: int)

  function BriefOf(d: Doc): Brief {
    Brief(d.docType, d.folio, d.rut, d.date, d.total)
  }

  function BriefKey(norm: Norm, b: Brief): Key {
    Key(b.docType, norm(b.rut), b.folio)
  }

  datatype Mismatch = Mismatch(docType: int, folio: int, rut: string, differences: map<Field, (int, int)>)

  function MismatchKey(norm: Norm, m: Mismatch): Key {
    Key(m.docType, norm(m.rut), m.folio)
  }

  datatype Report = Report(
    matched: nat, onlySii: seq<Brief>, onlySource: seq<Brief>, mismatched: seq<Mismatch>, balanced: bool,
    siiTotal: int, sourceTotal: int)

  function SumTotals(docs: seq<Doc>): int {
    if docs == [] then 0 else SumTotals(docs[..|docs| - 1]) + docs[|docs| - 1].total
  }

  function SumBriefs(briefs: seq<Brief>): int {
    if briefs == [] then 0 else SumBriefs(briefs[..|briefs| - 1]) + briefs[|briefs| - 1].total
  }

  /** By how much the total of the SII's document exceeds the other side's. */
  function TotalDifference(m: Mismatch): int {
    if Total in m.differences then m.differences[Total].0 - m.differences[Total].1 else 0
  }

  function SumDifferences(ms: seq<Mismatch>): int {
    if ms == [] then 0 else SumDifferences(ms[..|ms| - 1]) + TotalDifference(ms[|ms| - 1])
  }

  /** What the documents replaced by a later one of the same key add up to. */
  function Shadowed(norm: Norm, docs: seq<Doc>): int {
    if docs == [] then 0
    else
      var start, last := docs[..|docs| - 1], docs[|docs| - 1];
      var m := Index(norm, start);
      Shadowed(norm, start) + TotalAt(m, KeyOf(norm, last))
  }

  lemma {:induction false} IndexKeepsKeys(norm: Norm, docs: seq<Doc>)
    ensures forall k <- Index(norm, docs) :: KeyOf(norm, Index(norm, docs)[k]) == k && Index(norm, docs)[k] in docs
    ensures forall d <- docs :: KeyOf(norm, d) in Index(norm, docs)
  {
    if docs != [] {
      var start, last := docs[..|docs| - 1], docs[|docs| - 1];
      IndexKeepsKeys(norm, start);
      assert docs == start + [last];
    }
  }

  // ---------------------------------------------------------------- sums over keys

  ghost function SumOver(keys: set<Key>, f: Key -> int): int {
    if keys == {} then 0
    else
      SomeKey(keys);
      var k :| k in keys;
      f(k) + SumOver(keys - {k}, f)
  }

  lemma SomeKey(keys: set<Key>)
    requires keys != {}
    ensures exists k :: k in keys
  {
    if forall k :: k !in keys {
      Sets.NoMembers(keys);
    }
  }

  lemma {:induction false} SumOverAny(keys: set<Key>, f: Key -> int, k: Key)
    requires k in keys
    ensures SumOver(keys, f) == f(k) + SumOver(keys - {k}, f)
  {
    SomeKey(keys);
    var picked :| picked in keys && SumOver(keys, f) == f(picked) + SumOver(keys - {picked}, f);
    if picked != k {
      SumOverAny(keys - {picked}, f, k);
      SumOverAny(keys - {k}, f, picked);
      assert keys - {picked} - {k} == keys - {k} - {picked};
    }
  }

  lemma SumOverAdd(keys: set<Key>, f: Key -> int, k: Key)
    requires k !in keys
    ensures SumOver(keys + {k}, f) == f(k) + SumOver(keys, f)
  {
    SumOverAny(keys + {k}, f, k);
    assert keys + {k} - {k} == keys;
  }

  lemma {:induction false} SumOverSame(keys: set<Key>, f: Key -> int, g: Key -> int)
    requires forall k <- keys :: f(k) == g(k)
    ensures SumOver(keys, f) == SumOver(keys, g)
  {
    if keys != {} {
      SomeKey(keys);
      var k :| k in keys;
      SumOverAny(keys, f, k);
      SumOverAny(keys, g, k);
      SumOverSame(keys - {k}, f, g);
    }
  }

  lemma {:induction false} SumOverUnion(a: set<Key>, b: set<Key>, f: Key -> int)
    requires a !! b
    ensures SumOver(a + b, f) == SumOver(a, f) + SumOver(b, f)
  {
    if b == {} {
      assert a + b == a;
    } else {
      SomeKey(b);
      var k :| k in b;
      SumOverUnion(a, b - {k}, f);
      SumOverAny(b, f, k);
      SumOverAny(a + b, f, k);
      assert a + b - {k} == a + (b - {k});
    }
  }

  lemma {:induction false} SumOverMinus(keys: set<Key>, f: Key -> int, g: Key -> int, h: Key -> int)
    requires forall k <- keys :: h(k) == f(k) - g(k)
    ensures SumOver(keys, h) == SumOver(keys, f) - SumOver(keys, g)
  {
    if keys != {} {
      SomeKey(keys);
      var k :| k in keys;
      SumOverAny(keys, f, k);
      SumOverAny(keys, g, k);
      SumOverAny(keys, h, k);
      SumOverMinus(keys - {k}, f, g, h);
    }
  }

  function TotalAt(m: map<Key, Doc>, k: Key): int {
    if k in m then m[k].total else 0
  }

  function TotalIn(m: map<Key, Doc>): Key -> int {
    (k: Key) => TotalAt(m, k)
  }

  /** A side's total is what its index holds plus what was shadowed. */
  lemma {:induction false} TotalsSplit(norm: Norm, docs: seq<Doc>)
    ensures SumTotals(docs) == SumOver(Index(norm, docs).Keys, TotalIn(Index(norm, docs))) + Shadowed(norm, docs)
  {
    if docs != [] {
      var start, last := docs[..|docs| - 1], docs[|docs| - 1];
      TotalsSplit(norm, start);
      IndexGrows(Index(norm, start), KeyOf(norm, last), last);
    }
  }

  lemma IndexGrows(m: map<Key, Doc>, k: Key, d: Doc)
    ensures SumOver(m[k := d].Keys, TotalIn(m[k := d])) ==
            SumOver(m.Keys, TotalIn(m)) + d.total - TotalAt(m, k)
  {
    var after, others := m[k := d], m.Keys - {k};
    assert after.Keys == others + {k};
    SumOverAdd(others, TotalIn(after), k);
    SumOverSame(others, TotalIn(after), TotalIn(m));
    if k in m {
      SumOverAny(m.Keys, TotalIn(m), k);
    } else {
      assert others == m.Keys;
    }
  }

  ghost predicate UniqueKeys(norm: Norm, docs: seq<Doc>) {
    forall i, j :: 0 <= i < j < |docs| ==> KeyOf(norm, docs[i]) != KeyOf(norm, docs[j])
  }

  /** Without repeated keys nothing is shadowed. */
  lemma {:induction false} UniqueMeansNothingShadowed(norm: Norm, docs: seq<Doc>)
    requires UniqueKeys(norm, docs)
    ensures Shadowed(norm, docs) == 0
  {
    if docs != [] {
      var start, last := docs[..|docs| - 1], docs[|docs| - 1];
      UniqueMeansNothingShadowed(norm, start);
      IndexKeepsKeys(norm, start);
    }
  }
}
