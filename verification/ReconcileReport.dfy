/**
 The report of a reconciliation: which documents each group holds, and what its totals say.
 */
module ReconcileReport {
  import opened Reconcile
  import Sets

  // ---------------------------------------------------------------- ordered lists of entries

  predicate RankLeq(a: (int, int), b: (int, int)) {
    a.0 < b.0 || (a.0 == b.0 && a.1 <= b.1)
  }

  /** In order of document type and folio. */
  ghost predicate Sorted<T(!new)>(entries: seq<T>, rank: T -> (int, int)) {
    forall i, j :: 0 <= i < j < |entries| ==> RankLeq(rank(entries[i]), rank(entries[j]))
  }

  /** One entry for each of those keys, and nothing else. */
  ghost predicate Lists<T(!new)>(entries: seq<T>, key: T -> Key, entry: Key -> T, keys: set<Key>) {
    && (forall i, j :: 0 <= i < j < |entries| ==> key(entries[i]) != key(entries[j]))
    && (forall x <- entries :: key(x) in keys && x == entry(key(x)))
    && (forall k <- keys :: entry(k) in entries && key(entry(k)) == k)
  }

  function InsertedAt<T>(entries: seq<T>, at: nat, x: T): seq<T>
    requires at <= |entries|
  {
    entries[..at] + [x] + entries[at..]
  }

  lemma InsertedMembers<T(!new)>(entries: seq<T>, at: nat, x: T)
    requires at <= |entries|
    ensures forall y :: y in InsertedAt(entries, at, x) <==> y in entries || y == x
  {
    var all := InsertedAt(entries, at, x);
    assert all[at] == x;
    forall y | y in entries ensures y in all {
      var i :| 0 <= i < |entries| && entries[i] == y;
      assert all[if i < at then i else i + 1] == y;
    }
  }

  lemma InsertedStayDistinct<T(!new)>(entries: seq<T>, key: T -> Key, at: nat, x: T)
    requires at <= |entries| && (forall i, j :: 0 <= i < j < |entries| ==> key(entries[i]) != key(entries[j]))
    requires forall i :: 0 <= i < |entries| ==> key(entries[i]) != key(x)
    ensures var all := InsertedAt(entries, at, x); forall i, j :: 0 <= i < j < |all| ==> key(all[i]) != key(all[j])
  {
    var all := InsertedAt(entries, at, x);
    forall i | 0 <= i < |all| ensures all[i] == if i < at then entries[i] else if i == at then x else entries[i - 1] {
    }
  }

  lemma InsertedLists<T(!new)>(entries: seq<T>, key: T -> Key, entry: Key -> T, keys: set<Key>, at: nat, k: Key)
    requires Lists(entries, key, entry, keys) && at <= |entries| && k !in keys && key(entry(k)) == k
    ensures Lists(InsertedAt(entries, at, entry(k)), key, entry, keys + {k})
  {
    forall i | 0 <= i < |entries| ensures key(entries[i]) != k {
      assert entries[i] in entries;
    }
    InsertedStayDistinct(entries, key, at, entry(k));
    InsertedMembers(entries, at, entry(k));
    hide InsertedAt;
  }

  /** Puts an entry after all those that do not rank above it. */
  method Insert<T(!new)>(entries: seq<T>, rank: T -> (int, int), x: T) returns (all: seq<T>, at: nat)
    requires Sorted(entries, rank)
    ensures at <= |entries| && all == InsertedAt(entries, at, x) && Sorted(all, rank)
  {
    at := |entries|;
    while at > 0 && !RankLeq(rank(entries[at - 1]), rank(x))
      invariant at <= |entries|
      invariant forall i :: at <= i < |entries| ==> RankLeq(rank(x), rank(entries[i]))
    {
      at := at - 1;
    }
    all := InsertedAt(entries, at, x);
  }

  // ---------------------------------------------------------------- the entries

  const NOBODY := Doc(0, 0, "", 0, 0, 0, 0, 0)

  function At(m: map<Key, Doc>, k: Key): Doc {
    if k in m then m[k] else NOBODY
  }

  function DifferencesOf(sii: Doc, source: Doc): map<Field, (int, int)> {
    map f: Field | Value(sii, f) != Value(source, f) :: (Value(sii, f), Value(source, f))
  }

  function MismatchOf(sii: Doc, source: Doc): Mismatch {
    Mismatch(sii.docType, sii.folio, sii.rut, DifferencesOf(sii, source))
  }

  function BriefAt(m: map<Key, Doc>): Key -> Brief {
    (k: Key) => BriefOf(At(m, k))
  }

  function MismatchAt(a: map<Key, Doc>, b: map<Key, Doc>): Key -> Mismatch {
    (k: Key) => MismatchOf(At(a, k), At(b, k))
  }

  function KeyOfBrief(norm: Norm): Brief -> Key {
    (b: Brief) => BriefKey(norm, b)
  }

  function KeyOfMismatch(norm: Norm): Mismatch -> Key {
    (m: Mismatch) => MismatchKey(norm, m)
  }

  function RankOfBrief(): Brief -> (int, int) {
    (b: Brief) => (b.docType, b.folio)
  }

  function RankOfMismatch(): Mismatch -> (int, int) {
    (m: Mismatch) => (m.docType, m.folio)
  }

  /** The keys of both sides whose documents differ in an amount or in the date. */
  function Differing(a: map<Key, Doc>, b: map<Key, Doc>): set<Key> {
    set k | k in a && k in b && !Agree(a[k], b[k])
  }

  /** What a report of the two sides is. */
  ghost predicate IsReport(norm: Norm, sii: seq<Doc>, source: seq<Doc>, r: Report) {
    var a, b := Index(norm, sii), Index(norm, source);
    && r.matched == |a.Keys * b.Keys|
    && Lists(r.onlySii, KeyOfBrief(norm), BriefAt(a), a.Keys - b.Keys) && Sorted(r.onlySii, RankOfBrief())
    && Lists(r.onlySource, KeyOfBrief(norm), BriefAt(b), b.Keys - a.Keys) && Sorted(r.onlySource, RankOfBrief())
    && Lists(r.mismatched, KeyOfMismatch(norm), MismatchAt(a, b), Differing(a, b))
    && Sorted(r.mismatched, RankOfMismatch())
    && (r.balanced <==> r.onlySii == [] && r.onlySource == [] && r.mismatched == [])
    && r.siiTotal == SumTotals(sii) && r.sourceTotal == SumTotals(source)
  }

  // ---------------------------------------------------------------- the loops

  method BuildIndex(norm: Norm, docs: seq<Doc>) returns (m: map<Key, Doc>, total: int)
    ensures m == Index(norm, docs) && total == SumTotals(docs)
  {
    m, total := map[], 0;
    for i := 0 to |docs|
      invariant m == Index(norm, docs[..i]) && total == SumTotals(docs[..i])
    {
      assert docs[..i + 1][..i] == docs[..i];
      m := m[KeyOf(norm, docs[i]) := docs[i]];
      total := total + docs[i].total;
    }
    assert docs[..|docs|] == docs;
  }

  method ListBriefs(norm: Norm, m: map<Key, Doc>, keys: set<Key>) returns (briefs: seq<Brief>)
    requires keys <= m.Keys && forall k <- m :: KeyOf(norm, m[k]) == k
    ensures Lists(briefs, KeyOfBrief(norm), BriefAt(m), keys) && Sorted(briefs, RankOfBrief())
  {
    briefs := [];
    var left := keys;
    while left != {}
      invariant left <= keys && Lists(briefs, KeyOfBrief(norm), BriefAt(m), keys - left) && Sorted(briefs, RankOfBrief())
      decreases left
    {
      SomeKey(left);
      var k :| k in left;
      assert KeyOfBrief(norm)(BriefAt(m)(k)) == k;
      ghost var before := briefs;
      var at;
      briefs, at := Insert(briefs, RankOfBrief(), BriefAt(m)(k));
      InsertedLists(before, KeyOfBrief(norm), BriefAt(m), keys - left, at, k);
      assert keys - (left - {k}) == keys - left + {k};
      left := left - {k};
    }
    assert keys - left == keys;
  }

  /** Field by field, what differs between the two documents of a key. */
  method ListDifferences(sii: Doc, source: Doc) returns (differences: map<Field, (int, int)>)
    ensures differences == DifferencesOf(sii, source)
    ensures differences == map[] <==> Agree(sii, source)
  {
    differences := map[];
    for i := 0 to |FIELDS|
      invariant forall f: Field :: f in differences <==> f in FIELDS[..i] && Value(sii, f) != Value(source, f)
      invariant forall f <- differences :: differences[f] == (Value(sii, f), Value(source, f))
    {
      var f := FIELDS[i];
      if Value(sii, f) != Value(source, f) {
        differences := differences[f := (Value(sii, f), Value(source, f))];
      }
    }
    AllFields();
    assert FIELDS[..|FIELDS|] == FIELDS;
    assert forall f: Field :: Value(sii, f) != Value(source, f) ==> f in differences;
  }

  lemma AllFields()
    ensures forall f: Field :: f in FIELDS
  {
    forall f: Field ensures f in FIELDS {
      match f
      case Exempt => assert FIELDS[0] == f;
      case Net => assert FIELDS[1] == f;
      case Vat => assert FIELDS[2] == f;
      case Total => assert FIELDS[3] == f;
      case Date => assert FIELDS[4] == f;
    }
  }

  method ListMismatches(norm: Norm, a: map<Key, Doc>, b: map<Key, Doc>) returns (mismatched: seq<Mismatch>)
    requires forall k <- a :: KeyOf(norm, a[k]) == k
    ensures Lists(mismatched, KeyOfMismatch(norm), MismatchAt(a, b), Differing(a, b))
    ensures Sorted(mismatched, RankOfMismatch())
  {
    mismatched := [];
    var left := a.Keys * b.Keys;
    while left != {}
      invariant left <= a.Keys * b.Keys
      invariant Lists(mismatched, KeyOfMismatch(norm), MismatchAt(a, b), Differing(a, b) - left)
      invariant Sorted(mismatched, RankOfMismatch())
      decreases left
    {
      SomeKey(left);
      var k :| k in left;
      var differences := ListDifferences(a[k], b[k]);
      if differences != map[] {
        var x := Mismatch(a[k].docType, a[k].folio, a[k].rut, differences);
        assert x == MismatchAt(a, b)(k) && KeyOfMismatch(norm)(x) == k;
        ghost var before := mismatched;
        var at;
        mismatched, at := Insert(mismatched, RankOfMismatch(), x);
        InsertedLists(before, KeyOfMismatch(norm), MismatchAt(a, b), Differing(a, b) - left, at, k);
        assert Differing(a, b) - (left - {k}) == Differing(a, b) - left + {k};
      } else {
        assert Differing(a, b) - (left - {k}) == Differing(a, b) - left;
      }
      left := left - {k};
    }
    assert Differing(a, b) - left == Differing(a, b);
  }

  /** Crosses what the SII has registered with what the customer's system has. */
  method Run(norm: Norm, sii: seq<Doc>, source: seq<Doc>) returns (r: Report)
    ensures IsReport(norm, sii, source, r)
  {
    hide Index, Lists, Sorted, Differing;
    var a, siiTotal := BuildIndex(norm, sii);
    var b, sourceTotal := BuildIndex(norm, source);
    IndexKeepsKeys(norm, sii);
    IndexKeepsKeys(norm, source);
    var mismatched := ListMismatches(norm, a, b);
    var onlySii := ListBriefs(norm, a, a.Keys - b.Keys);
    var onlySource := ListBriefs(norm, b, b.Keys - a.Keys);
    r := Report(|a.Keys * b.Keys|, onlySii, onlySource, mismatched,
                !(onlySii != [] || onlySource != [] || mismatched != []), siiTotal, sourceTotal);
  }

  // ---------------------------------------------------------------- what the totals say

  lemma OneFewer<T(!new)>(entries: seq<T>, key: T -> Key, entry: Key -> T, keys: set<Key>)
    requires Lists(entries, key, entry, keys) && entries != []
    ensures var n := |entries| - 1; Lists(entries[..n], key, entry, keys - {key(entries[n])}) && key(entries[n]) in keys
  {
    var n := |entries| - 1;
    assert entries[n] in entries;
    forall k | k in keys - {key(entries[n])} ensures entry(k) in entries[..n] {
      assert entry(k) != entries[n];
    }
  }

  lemma NothingListed<T(!new)>(key: T -> Key, entry: Key -> T, keys: set<Key>)
    requires Lists([], key, entry, keys)
    ensures keys == {}
  {
    var none: seq<T> := [];
    forall k ensures k !in keys {
      assert entry(k) !in none;
    }
  }

  lemma {:induction false} BriefsAddUp(norm: Norm, briefs: seq<Brief>, m: map<Key, Doc>, keys: set<Key>)
    requires Lists(briefs, KeyOfBrief(norm), BriefAt(m), keys) && keys <= m.Keys
    ensures SumBriefs(briefs) == SumOver(keys, TotalIn(m))
  {
    if briefs == [] {
      NothingListed(KeyOfBrief(norm), BriefAt(m), keys);
    } else {
      var n := |briefs| - 1;
      var k := BriefKey(norm, briefs[n]);
      OneFewer(briefs, KeyOfBrief(norm), BriefAt(m), keys);
      assert briefs[n] == BriefAt(m)(k);
      BriefsAddUp(norm, briefs[..n], m, keys - {k});
      SumOverAny(keys, TotalIn(m), k);
    }
  }

  function DifferenceIn(a: map<Key, Doc>, b: map<Key, Doc>): Key -> int {
    (k: Key) => TotalAt(a, k) - TotalAt(b, k)
  }

  lemma OneMismatch(a: map<Key, Doc>, b: map<Key, Doc>, k: Key)
    requires k in a && k in b
    ensures TotalDifference(MismatchAt(a, b)(k)) == DifferenceIn(a, b)(k)
  {
    var differences := DifferencesOf(a[k], b[k]);
    assert Total in differences <==> Value(a[k], Total) != Value(b[k], Total);
    if Total in differences {
      assert differences[Total] == (a[k].total, b[k].total);
    }
    assert TotalDifference(MismatchOf(a[k], b[k])) == a[k].total - b[k].total;
    assert MismatchAt(a, b)(k) == MismatchOf(At(a, k), At(b, k));
  }

  lemma {:induction false} MismatchesAddUp(norm: Norm, ms: seq<Mismatch>, a: map<Key, Doc>, b: map<Key, Doc>, keys: set<Key>)
    requires Lists(ms, KeyOfMismatch(norm), MismatchAt(a, b), keys) && keys <= a.Keys * b.Keys
    ensures SumDifferences(ms) == SumOver(keys, DifferenceIn(a, b))
  {
    if ms == [] {
      NothingListed(KeyOfMismatch(norm), MismatchAt(a, b), keys);
    } else {
      var n := |ms| - 1;
      var k := MismatchKey(norm, ms[n]);
      OneFewer(ms, KeyOfMismatch(norm), MismatchAt(a, b), keys);
      assert ms[n] in ms && ms[n] == MismatchAt(a, b)(k);
      OneMismatch(a, b, k);
      hide Lists, MismatchAt, DifferenceIn, TotalDifference;
      MismatchesAddUp(norm, ms[..n], a, b, keys - {k});
      SumOverAny(keys, DifferenceIn(a, b), k);
    }
  }

  /** The mismatched documents carry the whole difference of the keys both sides have. */
  lemma CommonKeysAddUp(a: map<Key, Doc>, b: map<Key, Doc>)
    ensures SumOver(a.Keys * b.Keys, TotalIn(a)) - SumOver(a.Keys * b.Keys, TotalIn(b)) ==
            SumOver(Differing(a, b), DifferenceIn(a, b))
  {
    var common, differing := a.Keys * b.Keys, Differing(a, b);
    var agreeing := common - differing;
    SumOverMinus(common, TotalIn(a), TotalIn(b), DifferenceIn(a, b));
    assert common == differing + agreeing;
    SumOverUnion(differing, agreeing, DifferenceIn(a, b));
    forall k | k in agreeing ensures DifferenceIn(a, b)(k) == 0 {
      assert Value(a[k], Total) == Value(b[k], Total);
    }
    SumOfZeros(agreeing, DifferenceIn(a, b));
  }

  lemma {:induction false} SumOfZeros(keys: set<Key>, f: Key -> int)
    requires forall k <- keys :: f(k) == 0
    ensures SumOver(keys, f) == 0
  {
    if keys != {} {
      SomeKey(keys);
      var k :| k in keys;
      SumOverAny(keys, f, k);
      SumOfZeros(keys - {k}, f);
    }
  }

  lemma SideSplits(a: map<Key, Doc>, b: map<Key, Doc>)
    ensures SumOver(a.Keys, TotalIn(a)) == SumOver(a.Keys - b.Keys, TotalIn(a)) + SumOver(a.Keys * b.Keys, TotalIn(a))
  {
    SumOverUnion(a.Keys - b.Keys, a.Keys * b.Keys, TotalIn(a));
    assert a.Keys == (a.Keys - b.Keys) + a.Keys * b.Keys;
  }

  /** The difference between the two totals is accounted for to the peso: what only one side has,
      what both have with different totals, and what repeated keys hid on each side. */
  lemma TotalsReconcile(norm: Norm, sii: seq<Doc>, source: seq<Doc>, r: Report)
    requires IsReport(norm, sii, source, r)
    ensures r.siiTotal - r.sourceTotal ==
            SumBriefs(r.onlySii) - SumBriefs(r.onlySource) + SumDifferences(r.mismatched)
            + Shadowed(norm, sii) - Shadowed(norm, source)
  {
    var a, b := Index(norm, sii), Index(norm, source);
    hide Index, Lists, Sorted, Shadowed, SumTotals, SumBriefs, SumDifferences;
    TotalsSplit(norm, sii);
    TotalsSplit(norm, source);
    SideSplits(a, b);
    SideSplits(b, a);
    assert b.Keys * a.Keys == a.Keys * b.Keys;
    BriefsAddUp(norm, r.onlySii, a, a.Keys - b.Keys);
    BriefsAddUp(norm, r.onlySource, b, b.Keys - a.Keys);
    MismatchesAddUp(norm, r.mismatched, a, b, Differing(a, b));
    CommonKeysAddUp(a, b);
  }

  /** With no repeated keys the three groups explain the whole difference. */
  lemma TotalsReconcileExactly(norm: Norm, sii: seq<Doc>, source: seq<Doc>, r: Report)
    requires IsReport(norm, sii, source, r) && UniqueKeys(norm, sii) && UniqueKeys(norm, source)
    ensures r.siiTotal - r.sourceTotal ==
            SumBriefs(r.onlySii) - SumBriefs(r.onlySource) + SumDifferences(r.mismatched)
    ensures r.balanced ==> r.siiTotal == r.sourceTotal
  {
    hide IsReport;
    TotalsReconcile(norm, sii, source, r);
    UniqueMeansNothingShadowed(norm, sii);
    UniqueMeansNothingShadowed(norm, source);
    assert r.balanced ==> r.onlySii == [] && r.onlySource == [] && r.mismatched == [] by {
      BalancedMeansEmpty(norm, sii, source, r);
    }
  }

  lemma BalancedMeansEmpty(norm: Norm, sii: seq<Doc>, source: seq<Doc>, r: Report)
    requires IsReport(norm, sii, source, r)
    ensures r.balanced <==> r.onlySii == [] && r.onlySource == [] && r.mismatched == []
  {
    hide Lists, Sorted, Index, SumTotals;
  }

  lemma SameKeysExactly(a: map<Key, Doc>, b: map<Key, Doc>)
    ensures a.Keys - b.Keys == {} && b.Keys - a.Keys == {} <==> a.Keys == b.Keys
  {
  }

  lemma NoneDiffersExactly(a: map<Key, Doc>, b: map<Key, Doc>)
    ensures Differing(a, b) == {} <==> forall k :: k in a && k in b ==> Agree(a[k], b[k])
  {
    hide Agree;
    if forall k :: k in a && k in b ==> Agree(a[k], b[k]) {
      Sets.NoMembers(Differing(a, b));
    } else {
      var k :| k in a && k in b && !Agree(a[k], b[k]);
      assert k in Differing(a, b);
    }
  }

  /** A balanced report has equal totals exactly when repeated keys hid as much on either side. */
  lemma BalancedTotalsExactly(norm: Norm, sii: seq<Doc>, source: seq<Doc>, r: Report)
    requires IsReport(norm, sii, source, r) && r.balanced
    ensures r.siiTotal == r.sourceTotal <==> Shadowed(norm, sii) == Shadowed(norm, source)
  {
    TotalsReconcile(norm, sii, source, r);
    BalancedMeansEmpty(norm, sii, source, r);
    hide IsReport, Shadowed;
  }

  lemma {:induction false} ListedCount<T(!new)>(entries: seq<T>, key: T -> Key, entry: Key -> T, keys: set<Key>)
    requires Lists(entries, key, entry, keys)
    ensures |entries| == |keys|
  {
    if entries == [] {
      NothingListed(key, entry, keys);
    } else {
      var n := |entries| - 1;
      OneFewer(entries, key, entry, keys);
      ListedCount(entries[..n], key, entry, keys - {key(entries[n])});
    }
  }

  lemma {:induction false} UniqueKeysCount(norm: Norm, docs: seq<Doc>)
    requires UniqueKeys(norm, docs)
    ensures |Index(norm, docs)| == |docs|
  {
    if docs != [] {
      var start, last := docs[..|docs| - 1], docs[|docs| - 1];
      UniqueKeysCount(norm, start);
      IndexKeepsKeys(norm, start);
      forall d | d in start ensures KeyOf(norm, d) != KeyOf(norm, last) {
      }
      assert KeyOf(norm, last) !in Index(norm, start);
    }
  }

  lemma SplitSize(a: set<Key>, b: set<Key>)
    ensures |a| == |a * b| + |a - b|
  {
    assert a == a * b + (a - b);
    Sets.UnionSize(a * b, a - b);
  }

  lemma DifferingAreCommon(a: map<Key, Doc>, b: map<Key, Doc>)
    ensures Differing(a, b) <= a.Keys * b.Keys
  {
  }

  /** Every document is in exactly one group of its side: matched, or only there. */
  lemma GroupsPartition(norm: Norm, sii: seq<Doc>, source: seq<Doc>, r: Report)
    requires IsReport(norm, sii, source, r) && UniqueKeys(norm, sii) && UniqueKeys(norm, source)
    ensures r.matched + |r.onlySii| == |sii| && r.matched + |r.onlySource| == |source|
    ensures |r.mismatched| <= r.matched
  {
    var a, b := Index(norm, sii), Index(norm, source);
    UniqueKeysCount(norm, sii);
    UniqueKeysCount(norm, source);
    hide Lists, Sorted, Index, UniqueKeys;
    ListedCount(r.onlySii, KeyOfBrief(norm), BriefAt(a), a.Keys - b.Keys);
    ListedCount(r.onlySource, KeyOfBrief(norm), BriefAt(b), b.Keys - a.Keys);
    ListedCount(r.mismatched, KeyOfMismatch(norm), MismatchAt(a, b), Differing(a, b));
    SplitSize(a.Keys, b.Keys);
    SplitSize(b.Keys, a.Keys);
    assert b.Keys * a.Keys == a.Keys * b.Keys;
    DifferingAreCommon(a, b);
    Sets.SubsetSize(Differing(a, b), a.Keys * b.Keys);
  }

  /** Balanced means the two sides have the same keys with the same amounts and dates. */
  lemma BalancedExactly(norm: Norm, sii: seq<Doc>, source: seq<Doc>, r: Report)
    requires IsReport(norm, sii, source, r)
    ensures var a, b := Index(norm, sii), Index(norm, source);
            r.balanced <==> a.Keys == b.Keys && forall k <- a :: k in b && Agree(a[k], b[k])
  {
    var a, b := Index(norm, sii), Index(norm, source);
    ListedExactly(r.onlySii, KeyOfBrief(norm), BriefAt(a), a.Keys - b.Keys);
    ListedExactly(r.onlySource, KeyOfBrief(norm), BriefAt(b), b.Keys - a.Keys);
    ListedExactly(r.mismatched, KeyOfMismatch(norm), MismatchAt(a, b), Differing(a, b));
    BalancedMeansEmpty(norm, sii, source, r);
    hide IsReport, Index, Agree, Differing;
    SameKeysExactly(a, b);
    NoneDiffersExactly(a, b);
  }

  lemma ListedExactly<T(!new)>(entries: seq<T>, key: T -> Key, entry: Key -> T, keys: set<Key>)
    requires Lists(entries, key, entry, keys)
    ensures entries == [] <==> keys == {}
  {
    if entries == [] {
      NothingListed(key, entry, keys);
    } else {
      assert entries[0] in entries;
    }
  }

  lemma OneDoc(norm: Norm, d: Doc)
    ensures Index(norm, [d]) == map[KeyOf(norm, d) := d] && SumTotals([d]) == d.total
  {
    assert [d][..0] == [];
  }

  /** A repeated key hides its first document: the report says balanced although the totals differ. */
  lemma RepeatedKeysHideTotals(norm: Norm, first: Doc, last: Doc, r: Report)
    requires KeyOf(norm, first) == KeyOf(norm, last) && IsReport(norm, [first, last], [last], r)
    ensures r.balanced && r.siiTotal - r.sourceTotal == first.total
  {
    var a, b := Index(norm, [first, last]), Index(norm, [last]);
    OneDoc(norm, first);
    OneDoc(norm, last);
    assert [first, last][..1] == [first];
    assert a == Index(norm, [first])[KeyOf(norm, last) := last];
    assert a == b;
    assert SumTotals([first, last]) == SumTotals([first]) + last.total;
    BalancedExactly(norm, [first, last], [last], r);
    hide Lists, Sorted, Index, SumTotals, DifferencesOf;
  }
}
