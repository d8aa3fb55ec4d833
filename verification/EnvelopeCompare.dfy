/**
 Comparing two envelopes field by field: no two leaves share a path, so the list of differences
 is complete.
 */
module EnvelopeCompare {
  import opened Wrappers
  import opened EnvelopeTree
  import Text

  // ---------------------------------------------------------------- no two leaves share a path

  /** XML names contain no brackets. */
  predicate LegalNames(node: Node) {
    '[' !in node.name && forall c <- node.children :: LegalNames(c)
  }

  /** Where a mark first appears. */
  function FirstIndex(s: string, mark: char): nat {
    if s == [] || s[0] == mark then 0 else 1 + FirstIndex(s[1..], mark)
  }

  lemma {:induction false} FirstIndexAfter(a: string, mark: char, rest: string)
    requires mark !in a
    ensures FirstIndex(a + [mark] + rest, mark) == |a|
  {
    if a != [] {
      FirstIndexAfter(a[1..], mark, rest);
      assert (a + [mark] + rest)[1..] == a[1..] + [mark] + rest;
    }
  }

  lemma SameUpToMark(a: string, b: string, mark: char, restA: string, restB: string)
    requires mark !in a && mark !in b
    requires a + [mark] + restA == b + [mark] + restB
    ensures a == b && restA == restB
  {
    FirstIndexAfter(a, mark, restA);
    FirstIndexAfter(b, mark, restB);
    var s := a + [mark] + restA;
    assert a == s[..|a|] && b == s[..|b|];
    assert restA == s[|a| + 1..] && restB == s[|b| + 1..];
  }

  lemma NoBracketInDecimal(n: nat)
    ensures ']' !in Text.Decimal(n)
  {
    Text.DecimalIsDigits(n);
  }

  /** A path segment can be read back from what follows it. */
  lemma SegmentReadsBack(m: string, i: nat, restM: string, n: string, j: nat, restN: string)
    requires '[' !in m && '[' !in n
    requires Segment(m, i) + restM == Segment(n, j) + restN
    ensures m == n && i == j && restM == restN
  {
    var tailM, tailN := Text.Decimal(i) + "]" + restM, Text.Decimal(j) + "]" + restN;
    assert Segment(m, i) + restM == "/" + (m + "[" + tailM);
    assert Segment(n, j) + restN == "/" + (n + "[" + tailN);
    assert m + "[" + tailM == (Segment(m, i) + restM)[1..];
    assert n + "[" + tailN == (Segment(n, j) + restN)[1..];
    SameUpToMark(m, n, '[', tailM, tailN);
    NoBracketInDecimal(i);
    NoBracketInDecimal(j);
    SameUpToMark(Text.Decimal(i), Text.Decimal(j), ']', restM, restN);
    Text.DecimalInjective(i, j);
  }

  ghost predicate Below(path: string, entry: Entry) {
    path <= entry.path
  }

  ghost predicate DistinctPaths(entries: seq<Entry>) {
    forall i, j :: 0 <= i < j < |entries| ==> entries[i].path != entries[j].path
  }

  /** Every leaf of child `i` lies below the path of child `i`. */
  lemma {:induction false} ChildLiesBelow(node: Node, i: nat, path: string, labels: Labels)
    requires i < |node.children|
    ensures forall e <- FlattenChild(node, i, path, labels) :: Below(PathOf(node, i, path), e)
    decreases node, 0
  {
    var child := node.children[i];
    if !Skipped(child) && child.children != [] {
      LeavesLieBelow(child, |child.children|, PathOf(node, i, path), labels);
    }
  }

  lemma {:induction false} LeavesLieBelow(node: Node, n: nat, path: string, labels: Labels)
    requires n <= |node.children|
    ensures forall e <- FlattenFirst(node, n, path, labels) :: Below(path, e)
    decreases node, n + 1
  {
    if n > 0 {
      LeavesLieBelow(node, n - 1, path, labels);
      ChildLiesBelow(node, n - 1, path, labels);
      forall e | e in FlattenChild(node, n - 1, path, labels) ensures Below(path, e) {
        assert Below(PathOf(node, n - 1, path), e);
        assert path <= PathOf(node, n - 1, path);
      }
    }
  }

  lemma {:induction false} NamesakesGrow(nodes: seq<Node>, i: nat, j: nat, name: string)
    requires i <= j <= |nodes|
    ensures CountNamed(nodes[..i], name) <= CountNamed(nodes[..j], name)
  {
    if i < j {
      NamesakesGrow(nodes, i, j - 1, name);
      assert nodes[..j][..j - 1] == nodes[..j - 1];
    }
  }

  /** Two different segments never lead to the same path. */
  lemma SegmentsExclude(path: string, m: string, i: nat, n: string, j: nat, target: string)
    requires '[' !in m && '[' !in n && (m, i) != (n, j)
    requires path + Segment(m, i) <= target
    ensures !(path + Segment(n, j) <= target)
  {
    hide Segment;
    if path + Segment(n, j) <= target {
      var restM, restN := target[|path + Segment(m, i)|..], target[|path + Segment(n, j)|..];
      assert target == path + Segment(m, i) + restM == path + Segment(n, j) + restN;
      assert target[|path|..] == Segment(m, i) + restM == Segment(n, j) + restN;
      SegmentReadsBack(m, i, restM, n, j, restN);
    }
  }

  lemma LaterNamesakeCountsMore(nodes: seq<Node>, i: nat, j: nat)
    requires i < j < |nodes| && !Skipped(nodes[j])
    ensures CountNamed(nodes[..i + 1], nodes[j].name) < CountNamed(nodes[..j + 1], nodes[j].name)
  {
    hide Skipped;
    NamesakesGrow(nodes, i + 1, j, nodes[j].name);
    assert nodes[..j + 1][..j] == nodes[..j];
  }

  /** Two children that are not skipped never have paths one below the other. */
  lemma SiblingsDoNotMeet(node: Node, i: nat, j: nat, path: string, p: Entry)
    requires LegalNames(node) && i < j < |node.children|
    requires !Skipped(node.children[i]) && !Skipped(node.children[j])
    requires Below(PathOf(node, i, path), p)
    ensures !Below(PathOf(node, j, path), p)
  {
    var a, b := node.children[i], node.children[j];
    assert LegalNames(a) && LegalNames(b);
    var m, n := CountNamed(node.children[..i + 1], a.name), CountNamed(node.children[..j + 1], b.name);
    hide LegalNames, Segment;
    LaterNamesakeCountsMore(node.children, i, j);
    hide CountNamed, Skipped;
    SegmentsExclude(path, a.name, m, b.name, n, p.path);
  }

  /** No two leaves of an envelope get the same path. */
  lemma {:induction false} PathsAreDistinct(node: Node, n: nat, path: string, labels: Labels)
    requires LegalNames(node) && n <= |node.children|
    ensures DistinctPaths(FlattenFirst(node, n, path, labels))
    decreases node, n + 1
  {
    if n > 0 {
      PathsAreDistinct(node, n - 1, path, labels);
      ChildPathsAreDistinct(node, n - 1, path, labels);
      var before, last := FlattenFirst(node, n - 1, path, labels), FlattenChild(node, n - 1, path, labels);
      forall e, f | e in before && f in last ensures e.path != f.path {
        EarlierLeafLiesElsewhere(node, n - 1, n - 1, path, labels, e);
        ChildLiesBelow(node, n - 1, path, labels);
        assert Below(PathOf(node, n - 1, path), f);
      }
    }
  }

  lemma {:induction false} ChildPathsAreDistinct(node: Node, i: nat, path: string, labels: Labels)
    requires LegalNames(node) && i < |node.children|
    ensures DistinctPaths(FlattenChild(node, i, path, labels))
    decreases node, 0
  {
    var child := node.children[i];
    if !Skipped(child) && child.children != [] {
      PathsAreDistinct(child, |child.children|, PathOf(node, i, path), labels);
    }
  }

  lemma {:induction false} EarlierLeafLiesElsewhere(node: Node, n: nat, j: nat, path: string, labels: Labels, e: Entry)
    requires LegalNames(node) && n <= j < |node.children| && e in FlattenFirst(node, n, path, labels)
    requires !Skipped(node.children[j])
    ensures !Below(PathOf(node, j, path), e)
  {
    if n > 0 {
      if e in FlattenFirst(node, n - 1, path, labels) {
        EarlierLeafLiesElsewhere(node, n - 1, j, path, labels, e);
      } else {
        ChildLiesBelow(node, n - 1, path, labels);
        SiblingsDoNotMeet(node, n - 1, j, path, e);
      }
    }
  }

  // ---------------------------------------------------------------- distinct folios, distinct names

  /** Every name is the numeral of its type, from 1 to the count, each used once. */
  ghost predicate WellNumbered(labels: Labels) {
    && (forall p <- labels.names :: exists n: nat :: 1 <= n <= CountOf(labels, p.docType) && labels.names[p] == LabelText(p.docType, n))
    && forall p, q :: p in labels.names && q in labels.names && p.docType == q.docType && labels.names[p] == labels.names[q] ==> p == q
  }

  lemma LabelsDiffer(docType: string, m: nat, n: nat)
    requires LabelText(docType, m) == LabelText(docType, n)
    ensures m == n
  {
    assert Text.Decimal(m) == LabelText(docType, m)[|docType| + 1..];
    assert Text.Decimal(n) == LabelText(docType, n)[|docType| + 1..];
    Text.DecimalInjective(m, n);
  }

  lemma AddLabelNumbers(labels: Labels, pair: Pair)
    requires WellNumbered(labels)
    ensures WellNumbered(AddLabel(labels, pair))
  {
    if pair !in labels.names {
      var after := AddLabel(labels, pair);
      var n := CountOf(after, pair.docType);
      forall p | p in after.names
        ensures exists m: nat :: 1 <= m <= CountOf(after, p.docType) && after.names[p] == LabelText(p.docType, m)
        ensures p.docType == pair.docType && after.names[p] == after.names[pair] ==> p == pair
      {
        if p != pair {
          var m: nat :| 1 <= m <= CountOf(labels, p.docType) && labels.names[p] == LabelText(p.docType, m);
          assert after.names[p] == LabelText(p.docType, m);
          if p.docType == pair.docType && after.names[p] == after.names[pair] {
            LabelsDiffer(pair.docType, m, n);
          }
        } else {
          assert after.names[p] == LabelText(p.docType, n);
        }
      }
    }
  }

  /** Two different folios of one type are never given the same name. */
  lemma {:induction false} NamesAreInjective(pairs: seq<Pair>)
    ensures WellNumbered(LabelAll(pairs))
  {
    if pairs != [] {
      NamesAreInjective(pairs[..|pairs| - 1]);
      AddLabelNumbers(LabelAll(pairs[..|pairs| - 1]), pairs[|pairs| - 1]);
    }
  }

  // ---------------------------------------------------------------- the list of differences

  /** Contents as a dictionary; a repeated path would keep its last text. */
  function ToMap(entries: seq<Entry>): map<string, string> {
    if entries == [] then map[]
    else
      var last := entries[|entries| - 1];
      ToMap(entries[..|entries| - 1])[last.path := last.text]
  }

  /** What a dictionary holds, entry by entry. */
  ghost predicate Holds(m: map<string, string>, entries: seq<Entry>) {
    && (forall e <- entries :: e.path in m && m[e.path] == e.text)
    && (forall p <- m :: Entry(p, m[p]) in entries)
    && |m| == |entries|
  }

  lemma AddsOne(m: map<string, string>, start: seq<Entry>, last: Entry)
    requires Holds(m, start) && forall e <- start :: e.path != last.path
    ensures Holds(m[last.path := last.text], start + [last])
  {
    var after, all := m[last.path := last.text], start + [last];
    assert last.path !in m by {
      assert forall p <- m :: Entry(p, m[p]).path != last.path;
    }
    assert forall e :: e in all <==> e in start || e == last;
    forall p | p in after ensures Entry(p, after[p]) in all {
      assert p == last.path || Entry(p, m[p]) in start;
    }
  }

  /** With distinct paths the dictionary holds exactly the entries. */
  lemma {:induction false} ToMapLosesNothing(entries: seq<Entry>)
    requires DistinctPaths(entries)
    ensures Holds(ToMap(entries), entries)
  {
    if entries != [] {
      var start, last := entries[..|entries| - 1], entries[|entries| - 1];
      assert DistinctPaths(start);
      assert entries == start + [last];
      assert forall e <- start :: e.path != last.path;
      hide DistinctPaths, Holds;
      ToMapLosesNothing(start);
      AddsOne(ToMap(start), start, last);
    }
  }

  function Get(m: map<string, string>, path: string): Option<string> {
    if path in m then Some(m[path]) else None
  }

  datatype Difference = Difference(path: string, approved: Option<string>, emitted: Option<string>)

  lemma NoPath(paths: set<string>)
    requires forall p :: p !in paths
    ensures paths == {}
  {
  }

  lemma SomePath(paths: set<string>)
    requires paths != {}
    ensures exists p :: p in paths
  {
    if forall p :: p !in paths {
      NoPath(paths);
    }
  }

  predicate First(p: string, paths: set<string>) {
    p in paths && forall q <- paths :: Text.LexLeq(p, q)
  }

  lemma FirstWithOneMore(p: string, x: string, paths: set<string>)
    requires x in paths && First(p, paths - {x})
    ensures First(p, paths) || First(x, paths)
  {
    hide Text.LexLeq;
    Text.LexTotal(p, x);
    Text.LexTotal(x, x);
    forall q | q in paths ensures Text.LexLeq(p, x) ==> Text.LexLeq(p, q) ensures Text.LexLeq(x, p) ==> Text.LexLeq(x, q) {
      if q != x {
        assert q in paths - {x};
        if Text.LexLeq(x, p) {
          Text.LexTransitive(x, p, q);
        }
      }
    }
  }

  lemma {:induction false} FirstPathExists(paths: set<string>)
    requires paths != {}
    ensures exists p :: First(p, paths)
  {
    SomePath(paths);
    var x :| x in paths;
    if paths == {x} {
      Text.LexTotal(x, x);
      assert First(x, paths);
    } else {
      FirstPathExists(paths - {x});
      var p :| First(p, paths - {x});
      FirstWithOneMore(p, x, paths);
    }
  }

  ghost predicate InOrder(differences: seq<Difference>) {
    forall i, j :: 0 <= i < j < |differences| ==>
      differences[i].path != differences[j].path && Text.LexLeq(differences[i].path, differences[j].path)
  }

  /** The differences, in order of path: one for every path where the two dictionaries differ,
      with what each has there, and nothing else. */
  method Compare(approved: seq<Entry>, emitted: seq<Entry>) returns (differences: seq<Difference>)
    ensures InOrder(differences)
    ensures forall d <- differences ::
              d.approved == Get(ToMap(approved), d.path) && d.emitted == Get(ToMap(emitted), d.path)
    ensures forall p :: (exists d <- differences :: d.path == p) <==> Get(ToMap(approved), p) != Get(ToMap(emitted), p)
  {
    hide ToMap, Text.LexLeq;
    var a, e := ToMap(approved), ToMap(emitted);
    var left := a.Keys + e.Keys;
    differences := [];
    while left != {}
      invariant left <= a.Keys + e.Keys
      invariant InOrder(differences)
      invariant forall d, q :: d in differences && q in left ==> d.path != q && Text.LexLeq(d.path, q)
      invariant forall d <- differences :: d.approved == Get(a, d.path) && d.emitted == Get(e, d.path)
      invariant forall p :: (exists d <- differences :: d.path == p) <==>
                  p in a.Keys + e.Keys && p !in left && Get(a, p) != Get(e, p)
      decreases left
    {
      FirstPathExists(left);
      var p :| First(p, left);
      if Get(a, p) != Get(e, p) {
        var d := Difference(p, Get(a, p), Get(e, p));
        assert forall f :: f in differences + [d] <==> f in differences || f == d;
        assert forall i :: 0 <= i < |differences| ==> differences[i] in differences;
        differences := differences + [d];
      }
      left := left - {p};
    }
  }

  /** Two envelopes compare equal exactly when they have the same leaves. */
  lemma EqualExactlyWhenSameLeaves(a: Node, b: Node)
    requires LegalNames(a) && LegalNames(b)
    ensures ToMap(Contents(a)) == ToMap(Contents(b)) <==> forall e :: e in Contents(a) <==> e in Contents(b)
  {
    PathsAreDistinct(a, |a.children|, "", LabelsOf(a));
    PathsAreDistinct(b, |b.children|, "", LabelsOf(b));
    ToMapLosesNothing(Contents(a));
    ToMapLosesNothing(Contents(b));
    hide Contents, ToMap;
    var m, n := ToMap(Contents(a)), ToMap(Contents(b));
    if forall e :: e in Contents(a) <==> e in Contents(b) {
      forall p ensures p in m <==> p in n ensures p in m ==> m[p] == n[p] {
        if p in m {
          assert Entry(p, m[p]) in Contents(b);
        }
        if p in n {
          assert Entry(p, n[p]) in Contents(a);
        }
      }
    } else {
      var e :| (e in Contents(a)) != (e in Contents(b));
      assert Entry(e.path, e.text) == e;
    }
  }
}
