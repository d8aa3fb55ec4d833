/**
 What a reconciliation reports, document by document, in terms of the two lists it was given.
 */
module ReconcileAnswers {
  import opened Reconcile
  import opened ReconcileReport

  /** One document for the reconciliation: its type, its folio and the RUT of the other party. */
  predicate Same(norm: Norm, d: Doc, e: Doc) {
    d.docType == e.docType && d.folio == e.folio && norm(d.rut) == norm(e.rut)
  }

  /** No later document of the list is the same. */
  predicate IsLast(norm: Norm, docs: seq<Doc>, i: nat) {
    i < |docs| && forall j :: i < j < |docs| ==> !Same(norm, docs[i], docs[j])
  }

  /** The document that counts, among those of a list that are the same. */
  predicate Stands(norm: Norm, docs: seq<Doc>, d: Doc) {
    exists i: nat :: i < |docs| && IsLast(norm, docs, i) && docs[i] == d
  }

  predicate IsIn(norm: Norm, docs: seq<Doc>, d: Doc) {
    exists i :: 0 <= i < |docs| && Same(norm, docs[i], d)
  }

  lemma SameExactly(norm: Norm, d: Doc, e: Doc)
    ensures Same(norm, d, e) <==> KeyOf(norm, d) == KeyOf(norm, e)
  {
  }

  lemma StandsNext(norm: Norm, docs: seq<Doc>, last: Doc, d: Doc)
    ensures Stands(norm, docs + [last], d) <==> d == last || (Stands(norm, docs, d) && !Same(norm, d, last))
  {
    var all, n := docs + [last], |docs|;
    assert IsLast(norm, all, n) && all[n] == last;
    forall i: nat | i < n ensures IsLast(norm, all, i) <==> IsLast(norm, docs, i) && !Same(norm, docs[i], last) {
      assert all[n] == last;
      assert forall j :: i < j < n ==> all[j] == docs[j];
    }
    hide IsLast, Same;
    if i: nat :| i < n && IsLast(norm, docs, i) && docs[i] == d {
      assert IsLast(norm, all, i) <==> !Same(norm, d, last);
      assert all[i] == d;
    }
  }

  /** An index holds, under its own key, exactly the last of each document. */
  lemma {:induction false} IndexExactly(norm: Norm, docs: seq<Doc>, k: Key, d: Doc)
    ensures k in Index(norm, docs) && Index(norm, docs)[k] == d <==> Stands(norm, docs, d) && KeyOf(norm, d) == k
  {
    if docs != [] {
      var start, last := docs[..|docs| - 1], docs[|docs| - 1];
      IndexExactly(norm, start, k, d);
      assert docs == start + [last];
      StandsNext(norm, start, last, d);
      SameExactly(norm, d, last);
      hide Stands, Same;
    }
  }

  lemma InIndexExactly(norm: Norm, docs: seq<Doc>, d: Doc)
    ensures KeyOf(norm, d) in Index(norm, docs) <==> IsIn(norm, docs, d)
  {
    IndexKeepsKeys(norm, docs);
    var m := Index(norm, docs);
    if KeyOf(norm, d) in m {
      var found := m[KeyOf(norm, d)];
      var i :| 0 <= i < |docs| && docs[i] == found;
      assert Same(norm, docs[i], d);
    }
    hide Index;
  }

  predicate BriefOfOnly(norm: Norm, own: seq<Doc>, other: seq<Doc>, brief: Brief, d: Doc) {
    && Stands(norm, own, d) && !IsIn(norm, other, d)
    && brief == Brief(d.docType, d.folio, d.rut, d.date, d.total)
  }

  /** The documents only the SII has are the last of those the other side lacks; and those only the other
      side has, the last of those the SII lacks. */
  lemma OnlyExactly(norm: Norm, sii: seq<Doc>, source: seq<Doc>, r: Report, brief: Brief)
    requires IsReport(norm, sii, source, r)
    ensures brief in r.onlySii <==> exists d :: BriefOfOnly(norm, sii, source, brief, d)
    ensures brief in r.onlySource <==> exists d :: BriefOfOnly(norm, source, sii, brief, d)
  {
    OnlyHereExactly(norm, sii, source, r.onlySii, brief);
    OnlyHereExactly(norm, source, sii, r.onlySource, brief);
  }

  lemma OnlyHereExactly(norm: Norm, own: seq<Doc>, other: seq<Doc>, briefs: seq<Brief>, brief: Brief)
    requires Lists(briefs, KeyOfBrief(norm), BriefAt(Index(norm, own)), Index(norm, own).Keys - Index(norm, other).Keys)
    ensures brief in briefs <==> exists d :: BriefOfOnly(norm, own, other, brief, d)
  {
    var a, b := Index(norm, own), Index(norm, other);
    if brief in briefs {
      var k := BriefKey(norm, brief);
      assert KeyOfBrief(norm)(brief) == k && k in a && k !in b && brief == BriefAt(a)(k);
      IndexExactly(norm, own, k, a[k]);
      InIndexExactly(norm, other, a[k]);
      assert BriefOfOnly(norm, own, other, brief, a[k]);
    }
    if d :| BriefOfOnly(norm, own, other, brief, d) {
      var k := KeyOf(norm, d);
      IndexExactly(norm, own, k, d);
      InIndexExactly(norm, other, d);
      assert BriefAt(a)(k) == brief;
    }
  }

  /** The two documents differ in an amount or in the date. */
  predicate Differ(d: Doc, e: Doc) {
    d.exempt != e.exempt || d.net != e.net || d.vat != e.vat || d.total != e.total || d.date != e.date
  }

  /** Each difference shows what either side has, the SII's first. */
  predicate Shows(differences: map<Field, (int, int)>, f: Field, here: int, there: int) {
    && (f in differences <==> here != there)
    && (f in differences ==> differences[f] == (here, there))
  }

  predicate ShowsAll(differences: map<Field, (int, int)>, d: Doc, e: Doc) {
    && Shows(differences, Exempt, d.exempt, e.exempt) && Shows(differences, Net, d.net, e.net)
    && Shows(differences, Vat, d.vat, e.vat) && Shows(differences, Total, d.total, e.total)
    && Shows(differences, Date, d.date, e.date)
  }

  lemma AgreeExactly(d: Doc, e: Doc)
    ensures Agree(d, e) <==> !Differ(d, e)
    ensures ShowsAll(DifferencesOf(d, e), d, e)
  {
    forall f: Field ensures Shows(DifferencesOf(d, e), f, Value(d, f), Value(e, f)) {
    }
    if Agree(d, e) {
      assert Value(d, Exempt) == Value(e, Exempt) && Value(d, Net) == Value(e, Net) && Value(d, Vat) == Value(e, Vat);
      assert Value(d, Total) == Value(e, Total) && Value(d, Date) == Value(e, Date);
    }
  }

  predicate IsMismatch(norm: Norm, sii: seq<Doc>, source: seq<Doc>, m: Mismatch, d: Doc, e: Doc) {
    && Stands(norm, sii, d) && Stands(norm, source, e) && Same(norm, d, e) && Differ(d, e)
    && m.docType == d.docType && m.folio == d.folio && m.rut == d.rut && ShowsAll(m.differences, d, e)
  }

  /** The mismatched documents are the last ones both sides have that differ in an amount or the date,
      under the SII's type, folio and RUT, with exactly what differs. */
  lemma MismatchedExactly(norm: Norm, sii: seq<Doc>, source: seq<Doc>, r: Report, m: Mismatch)
    requires IsReport(norm, sii, source, r)
    ensures m in r.mismatched <==> exists d, e :: IsMismatch(norm, sii, source, m, d, e)
  {
    var a, b := Index(norm, sii), Index(norm, source);
    if m in r.mismatched {
      var k := MismatchKey(norm, m);
      assert KeyOfMismatch(norm)(m) == k && k in Differing(a, b) && m == MismatchAt(a, b)(k);
      CommonStands(norm, sii, source, k, a[k], b[k]);
      assert IsMismatch(norm, sii, source, m, a[k], b[k]);
    }
    if d, e :| IsMismatch(norm, sii, source, m, d, e) {
      var k := KeyOf(norm, d);
      CommonStands(norm, sii, source, k, d, e);
      ShownOnce(m.differences, d, e);
      assert k in Differing(a, b) && MismatchAt(a, b)(k) == m;
    }
  }

  lemma CommonStands(norm: Norm, sii: seq<Doc>, source: seq<Doc>, k: Key, d: Doc, e: Doc)
    ensures var a, b := Index(norm, sii), Index(norm, source);
            k in a && a[k] == d && k in b && b[k] == e <==>
            Stands(norm, sii, d) && Stands(norm, source, e) && Same(norm, d, e) && KeyOf(norm, d) == k
    ensures Agree(d, e) <==> !Differ(d, e)
    ensures ShowsAll(DifferencesOf(d, e), d, e)
  {
    IndexExactly(norm, sii, k, d);
    IndexExactly(norm, source, k, e);
    AgreeExactly(d, e);
    SameExactly(norm, d, e);
    hide Stands, Same, Index, Agree, Differ, ShowsAll, DifferencesOf;
  }

  lemma ShownOnce(differences: map<Field, (int, int)>, d: Doc, e: Doc)
    requires ShowsAll(differences, d, e)
    ensures differences == DifferencesOf(d, e)
  {
    forall f: Field ensures Shows(differences, f, Value(d, f), Value(e, f)) {
      match f
      case Exempt => case Net => case Vat => case Total => case Date =>
    }
  }

  /** Each group is in order of type and, within a type, of folio. */
  lemma GroupsAreOrdered(norm: Norm, sii: seq<Doc>, source: seq<Doc>, r: Report, i: nat, j: nat)
    requires IsReport(norm, sii, source, r) && i < j
    ensures j < |r.onlySii| ==>
              var x, y := r.onlySii[i], r.onlySii[j]; x.docType < y.docType || (x.docType == y.docType && x.folio <= y.folio)
    ensures j < |r.onlySource| ==>
              var x, y := r.onlySource[i], r.onlySource[j]; x.docType < y.docType || (x.docType == y.docType && x.folio <= y.folio)
    ensures j < |r.mismatched| ==>
              var x, y := r.mismatched[i], r.mismatched[j]; x.docType < y.docType || (x.docType == y.docType && x.folio <= y.folio)
  {
    hide Lists, Index, SumTotals;
    assert j < |r.onlySii| ==> RankLeq(RankOfBrief()(r.onlySii[i]), RankOfBrief()(r.onlySii[j]));
    assert j < |r.onlySource| ==> RankLeq(RankOfBrief()(r.onlySource[i]), RankOfBrief()(r.onlySource[j]));
    assert j < |r.mismatched| ==> RankLeq(RankOfMismatch()(r.mismatched[i]), RankOfMismatch()(r.mismatched[j]));
  }
}
