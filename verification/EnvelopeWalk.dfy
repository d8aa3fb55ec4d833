/**
 The two walks over an envelope: one names its folios in document order, the other emits its
 leaves while counting namesakes.
 */
module EnvelopeWalk {
  import opened Wrappers
  import opened EnvelopeTree

  /** A node and the name of its parent. */
  datatype Visit = Visit(node: Node, parent: string)

  /** Document order: a node before its children. */
  function Preorder(node: Node, parent: string): seq<Visit>
    decreases node, 1
  {
    [Visit(node, parent)] + PreorderIn(node.children, node.name)
  }

  function PreorderIn(nodes: seq<Node>, parent: string): seq<Visit>
    decreases nodes, 0
  {
    if nodes == [] then [] else Preorder(nodes[0], parent) + PreorderIn(nodes[1..], parent)
  }

  /** What the visited nodes declare, in order. */
  function DeclaredBy(visits: seq<Visit>): seq<Pair> {
    if visits == [] then []
    else
      var last := visits[|visits| - 1];
      DeclaredBy(visits[..|visits| - 1]) + AsSeq(Declared(last.node, last.parent))
  }

  lemma {:induction false} DeclaredByConcat(xs: seq<Visit>, ys: seq<Visit>)
    ensures DeclaredBy(xs + ys) == DeclaredBy(xs) + DeclaredBy(ys)
  {
    if ys == [] {
      assert xs + ys == xs;
    } else {
      var n := |ys| - 1;
      DeclaredByConcat(xs, ys[..n]);
      assert (xs + ys)[..|xs + ys| - 1] == xs + ys[..n];
    }
  }

  /** Visiting in document order meets exactly the declarations of the tree. */
  lemma {:induction false} VisitsMeetDeclarations(node: Node, parent: string)
    ensures DeclaredBy(Preorder(node, parent)) == Declarations(node, parent)
    decreases node, 1
  {
    var first := [Visit(node, parent)];
    DeclaredByConcat(first, PreorderIn(node.children, node.name));
    assert first[..0] == [];
    assert DeclaredBy(first) == AsSeq(Declared(node, parent));
    VisitsMeetDeclarationsIn(node.children, node.name);
  }

  lemma {:induction false} VisitsMeetDeclarationsIn(nodes: seq<Node>, parent: string)
    ensures DeclaredBy(PreorderIn(nodes, parent)) == DeclarationsIn(nodes, parent)
    decreases nodes, 0
  {
    if nodes != [] {
      VisitsMeetDeclarations(nodes[0], parent);
      VisitsMeetDeclarationsIn(nodes[1..], parent);
      DeclaredByConcat(Preorder(nodes[0], parent), PreorderIn(nodes[1..], parent));
    }
  }

  lemma NothingNamed()
    ensures LabelAll(DeclaredBy([])) == NO_LABELS
  {
  }

  lemma NextVisit(visits: seq<Visit>, i: nat)
    requires i < |visits|
    ensures var declared, before := Declared(visits[i].node, visits[i].parent), LabelAll(DeclaredBy(visits[..i]));
            LabelAll(DeclaredBy(visits[..i + 1])) ==
            if declared.None? then before else AddLabel(before, declared.value)
  {
    hide Declared, AddLabel;
    assert visits[..i + 1][..i] == visits[..i];
    var before, declared := DeclaredBy(visits[..i]), Declared(visits[i].node, visits[i].parent);
    if declared.None? {
      assert DeclaredBy(visits[..i + 1]) == before;
    } else {
      assert DeclaredBy(visits[..i + 1]) == before + [declared.value];
      assert (before + [declared.value])[..|before|] == before;
    }
  }

  /** Names every folio the envelope declares: the n-th document of its type. */
  method NameFolios(root: Node) returns (names: map<Pair, string>)
    ensures names == LabelsOf(root).names
  {
    hide Declared, DeclaredBy, LabelAll, Declarations, Preorder, LabelText;
    names := map[];
    var counts: map<string, nat> := map[];
    var visits := Preorder(root, "");
    VisitsMeetDeclarations(root, "");
    NothingNamed();
    assert visits[..0] == [];
    for i := 0 to |visits|
      invariant Labels(names, counts) == LabelAll(DeclaredBy(visits[..i]))
    {
      NextVisit(visits, i);
      var declared := Declared(visits[i].node, visits[i].parent);
      if declared.None? {
        continue;
      }
      var pair := declared.value;
      if pair in names {
        continue;
      }
      var n := (if pair.docType in counts then counts[pair.docType] else 0) + 1;
      counts := counts[pair.docType := n];
      names := names[pair := LabelText(pair.docType, n)];
    }
    assert visits[..|visits|] == visits;
  }

  /** How often each name was met among the first children. */
  ghost predicate Counts(counters: map<string, nat>, nodes: seq<Node>) {
    forall name :: (if name in counters then counters[name] else 0) == CountNamed(nodes, name)
  }

  /** Emits the leaves below a node, after those already emitted. */
  method EmitLeaves(node: Node, path: string, labels: Labels, emitted: seq<Entry>) returns (leaves: seq<Entry>)
    ensures leaves == emitted + Flatten(node, path, labels)
    decreases node
  {
    hide LeafText, Segment;
    leaves := emitted;
    var counters: map<string, nat> := map[];
    for i := 0 to |node.children|
      invariant Counts(counters, node.children[..i])
      invariant leaves == emitted + FlattenFirst(node, i, path, labels)
    {
      var child := node.children[i];
      assert node.children[..i + 1][..i] == node.children[..i];
      if Skipped(child) {
        continue;
      }
      var n := (if child.name in counters then counters[child.name] else 0) + 1;
      counters := counters[child.name := n];
      var below := path + Segment(child.name, n);
      assert below == PathOf(node, i, path);
      if child.children != [] {
        leaves := EmitLeaves(child, below, labels, leaves);
      } else {
        leaves := leaves + [Entry(below, LeafText(node, child, labels))];
      }
    }
  }

  /** The reviewable contents of an envelope. */
  method ContentsOf(root: Node) returns (leaves: seq<Entry>)
    ensures leaves == Contents(root)
  {
    hide FlattenFirst;
    var names := NameFolios(root);
    NamesSuffice(root, |root.children|, "", Labels(names, map[]), LabelsOf(root));
    leaves := EmitLeaves(root, "", Labels(names, map[]), []);
  }

  /** Flattening reads the names, not the counts. */
  lemma {:induction false} NamesSuffice(node: Node, n: nat, path: string, a: Labels, b: Labels)
    requires n <= |node.children| && a.names == b.names
    ensures FlattenFirst(node, n, path, a) == FlattenFirst(node, n, path, b)
    decreases node, n
  {
    if n > 0 {
      NamesSuffice(node, n - 1, path, a, b);
      var child := node.children[n - 1];
      assert LeafText(node, child, a) == LeafText(node, child, b);
      hide LeafText, PathOf;
      if !Skipped(child) && child.children != [] {
        NamesSuffice(child, |child.children|, PathOf(node, n - 1, path), a, b);
        assert Flatten(child, PathOf(node, n - 1, path), a) == Flatten(child, PathOf(node, n - 1, path), b);
      }
      assert FlattenChild(node, n - 1, path, a) == FlattenChild(node, n - 1, path, b);
    }
  }
}
