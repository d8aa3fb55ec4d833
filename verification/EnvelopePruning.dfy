/**
 Elements that are ignored may come, go or change from one emission to the next. Leaving them out
 leaves the contents of an envelope as they were, except where an element holds nothing else: it is
 then no leaf to flattening, and without them it is one.
 */
module EnvelopePruning {
  import opened Wrappers
  import opened EnvelopeTree
  import opened EnvelopeRenaming

  /** A node without what is ignored below it. */
  function Pruned(node: Node): (r: Node)
    ensures r.name == node.name && r.text == node.text
    decreases node, 1
  {
    Node(node.name, node.text, PrunedAll(node.children))
  }

  function PrunedAll(nodes: seq<Node>): (r: seq<Node>)
    ensures |r| <= |nodes|
    decreases nodes, 0
  {
    if nodes == [] then [] else (if Skipped(nodes[0]) then [] else [Pruned(nodes[0])]) + PrunedAll(nodes[1..])
  }

  /** An element with children all of which are ignored. */
  predicate Hollow(node: Node) {
    node.children != [] && PrunedAll(node.children) == []
  }

  /** How many of the elements that flattening reaches below a node are hollow. */
  function Hollows(node: Node): nat
    decreases node, |node.children| + 2
  {
    HollowsFirst(node, |node.children|)
  }

  function HollowsFirst(node: Node, n: nat): nat
    requires n <= |node.children|
    decreases node, n + 1
  {
    if n == 0 then 0 else HollowsFirst(node, n - 1) + HollowsChild(node, n - 1)
  }

  function HollowsChild(node: Node, i: nat): nat
    requires i < |node.children|
    decreases node, 0
  {
    var child := node.children[i];
    if Skipped(child) then 0 else if Hollow(child) then 1 else Hollows(child)
  }

  // ---------------------------------------------------------------- reading a pruned tree

  lemma Associate(a: seq<Node>, b: seq<Node>, c: seq<Node>)
    ensures a + (b + c) == (a + b) + c
  {
  }

  lemma {:induction false} PrunedConcat(xs: seq<Node>, ys: seq<Node>)
    ensures PrunedAll(xs + ys) == PrunedAll(xs) + PrunedAll(ys)
    decreases |xs|
  {
    if xs == [] {
      assert xs + ys == ys;
    } else {
      PrunedConcat(xs[1..], ys);
      assert (xs + ys)[0] == xs[0] && (xs + ys)[1..] == xs[1..] + ys;
      var first := if Skipped(xs[0]) then [] else [Pruned(xs[0])];
      assert PrunedAll(xs) == first + PrunedAll(xs[1..]);
      assert PrunedAll(xs + ys) == first + PrunedAll(xs[1..] + ys);
      hide Skipped, Pruned, PrunedAll;
      Associate(first, PrunedAll(xs[1..]), PrunedAll(ys));
    }
  }

  lemma {:induction false} FindPruned(node: Node, name: string)
    requires IgnoredAreQuietIn(node.children) && name in RELEVANT
    ensures Find(Pruned(node), name) == Find(node, name)
    decreases node, 1
  {
    if node.name != name {
      FindInPruned(node.children, name);
    }
  }

  lemma {:induction false} FindInPruned(nodes: seq<Node>, name: string)
    requires IgnoredAreQuietIn(nodes) && name in RELEVANT
    ensures FindIn(PrunedAll(nodes), name) == FindIn(nodes, name)
    decreases nodes, 0
  {
    if nodes != [] {
      FindInPruned(nodes[1..], name);
      if Skipped(nodes[0]) {
        QuietFindsNothing(nodes[0], name);
        assert PrunedAll(nodes) == PrunedAll(nodes[1..]);
      } else {
        FindPruned(nodes[0], name);
        assert PrunedAll(nodes)[0] == Pruned(nodes[0]) && PrunedAll(nodes)[1..] == PrunedAll(nodes[1..]);
      }
    }
  }

  lemma DeclaredPruned(node: Node, parent: string)
    requires IgnoredAreQuietIn(node.children)
    ensures Declared(Pruned(node), parent) == Declared(node, parent)
  {
    FindPruned(node, "TipoDTE");
    FindPruned(node, "TpoDoc");
    FindPruned(node, "Folio");
    FindPruned(node, "NroDoc");
    hide Find, Pruned;
  }

  lemma {:induction false} DeclarationsPruned(node: Node, parent: string)
    requires IgnoredAreQuietIn(node.children)
    ensures Declarations(Pruned(node), parent) == Declarations(node, parent)
    decreases node, 1
  {
    DeclaredPruned(node, parent);
    DeclarationsInPruned(node.children, node.name);
    hide Declared;
  }

  lemma {:induction false} DeclarationsInPruned(nodes: seq<Node>, parent: string)
    requires IgnoredAreQuietIn(nodes)
    ensures DeclarationsIn(PrunedAll(nodes), parent) == DeclarationsIn(nodes, parent)
    decreases nodes, 0
  {
    if nodes != [] {
      DeclarationsInPruned(nodes[1..], parent);
      if Skipped(nodes[0]) {
        QuietDeclaresNothing(nodes[0], parent);
        assert PrunedAll(nodes) == PrunedAll(nodes[1..]);
      } else {
        DeclarationsPruned(nodes[0], parent);
        assert PrunedAll(nodes)[0] == Pruned(nodes[0]) && PrunedAll(nodes)[1..] == PrunedAll(nodes[1..]);
      }
    }
  }

  /** Namesakes are counted without what is ignored anyway. */
  lemma {:induction false} CountPruned(nodes: seq<Node>, name: string)
    ensures CountNamed(PrunedAll(nodes), name) == CountNamed(nodes, name)
  {
    if nodes != [] {
      var start, last := nodes[..|nodes| - 1], nodes[|nodes| - 1];
      CountPruned(start, name);
      PrunedConcat(start, [last]);
      assert nodes == start + [last];
      if Skipped(last) {
        assert PrunedAll([last]) == [] && PrunedAll(start) + [] == PrunedAll(start);
      } else {
        assert PrunedAll([last]) == [Pruned(last)];
        assert (PrunedAll(start) + [Pruned(last)])[..|PrunedAll(start)|] == PrunedAll(start);
      }
    }
  }

  /** Where the first `n` children of a node stand once it is pruned. */
  lemma PrunedPrefix(node: Node, n: nat)
    requires n <= |node.children|
    ensures var m := |PrunedAll(node.children[..n])|;
            m <= |Pruned(node).children| && Pruned(node).children[..m] == PrunedAll(node.children[..n])
  {
    PrunedConcat(node.children[..n], node.children[n..]);
    assert node.children == node.children[..n] + node.children[n..];
  }

  lemma PrunedNext(node: Node, n: nat)
    requires 0 < n <= |node.children|
    ensures var child := node.children[n - 1];
            PrunedAll(node.children[..n]) ==
            PrunedAll(node.children[..n - 1]) + if Skipped(child) then [] else [Pruned(child)]
  {
    var child := node.children[n - 1];
    assert node.children[..n] == node.children[..n - 1] + [child];
    PrunedConcat(node.children[..n - 1], [child]);
    assert PrunedAll([child]) == if Skipped(child) then [] else [Pruned(child)];
  }

  lemma PathPruned(node: Node, n: nat, path: string)
    requires 0 < n <= |node.children| && !Skipped(node.children[n - 1])
    ensures var m := |PrunedAll(node.children[..n])|;
            && 0 < m <= |Pruned(node).children| && Pruned(node).children[m - 1] == Pruned(node.children[n - 1])
            && PathOf(Pruned(node), m - 1, path) == PathOf(node, n - 1, path)
  {
    hide Pruned, PrunedAll, Segment, CountNamed, Skipped;
    var child, m := node.children[n - 1], |PrunedAll(node.children[..n])|;
    PrunedNext(node, n);
    PrunedPrefix(node, n);
    CountPruned(node.children[..n], child.name);
    assert Pruned(node).children[m - 1] == Pruned(node).children[..m][m - 1];
    assert Pruned(node).children[m - 1].name == child.name;
  }

  lemma LeafPruned(parent: Node, leaf: Node, labels: Labels)
    requires IgnoredAreQuietIn(parent.children)
    ensures LeafText(Pruned(parent), Pruned(leaf), labels) == LeafText(parent, leaf, labels)
  {
    FindPruned(parent, "TipoDTE");
    FindPruned(parent, "TpoDoc");
    FindPruned(parent, "TpoDocRef");
    hide Find, Pruned, Named;
  }

  // ---------------------------------------------------------------- flattening a pruned tree

  /** The pruned entries are the others and one for each hollow element. */
  ghost predicate OneForEach(pruned: seq<Entry>, full: seq<Entry>, hollows: nat) {
    |pruned| == |full| + hollows && (hollows == 0 ==> pruned == full)
  }

  lemma {:induction false} HollowFlattens(node: Node, path: string, labels: Labels, n: nat)
    requires n <= |node.children| && PrunedAll(node.children[..n]) == []
    ensures FlattenFirst(node, n, path, labels) == []
  {
    if n > 0 {
      PrunedNext(node, n);
      HollowFlattens(node, path, labels, n - 1);
    }
  }

  lemma {:induction false} FlattenPruned(node: Node, path: string, labels: Labels)
    requires IgnoredAreQuietIn(node.children)
    ensures OneForEach(Flatten(Pruned(node), path, labels), Flatten(node, path, labels), Hollows(node))
    decreases node, |node.children| + 2
  {
    assert node.children[..|node.children|] == node.children;
    FlattenFirstPruned(node, |node.children|, path, labels);
  }

  lemma OneForEachConcat(a: seq<Entry>, b: seq<Entry>, m: nat, c: seq<Entry>, d: seq<Entry>, n: nat)
    requires OneForEach(a, b, m) && OneForEach(c, d, n)
    ensures OneForEach(a + c, b + d, m + n)
  {
  }

  lemma SkippedAddsNothing(node: Node, i: nat, path: string, labels: Labels)
    requires i < |node.children| && Skipped(node.children[i])
    ensures FlattenChild(node, i, path, labels) == [] && HollowsChild(node, i) == 0
  {
  }

  lemma FlattenNext(node: Node, n: nat, path: string, labels: Labels)
    requires 0 < n <= |node.children|
    ensures FlattenFirst(node, n, path, labels) == FlattenFirst(node, n - 1, path, labels) + FlattenChild(node, n - 1, path, labels)
    ensures HollowsFirst(node, n) == HollowsFirst(node, n - 1) + HollowsChild(node, n - 1)
  {
    hide FlattenChild, HollowsChild;
  }

  lemma {:induction false} FlattenFirstPruned(node: Node, n: nat, path: string, labels: Labels)
    requires IgnoredAreQuietIn(node.children) && n <= |node.children|
    ensures var m := |PrunedAll(node.children[..n])|;
            && m <= |Pruned(node).children|
            && OneForEach(FlattenFirst(Pruned(node), m, path, labels), FlattenFirst(node, n, path, labels), HollowsFirst(node, n))
    decreases node, n + 1
  {
    PrunedPrefix(node, n);
    if n > 0 {
      hide Pruned, PrunedAll, Hollow, OneForEach, FlattenFirst, FlattenChild, HollowsFirst, HollowsChild, IgnoredAreQuietIn;
      PrunedNext(node, n);
      PrunedPrefix(node, n - 1);
      FlattenFirstPruned(node, n - 1, path, labels);
      FlattenNext(node, n, path, labels);
      var k := |PrunedAll(node.children[..n - 1])|;
      if Skipped(node.children[n - 1]) {
        SkippedAddsNothing(node, n - 1, path, labels);
        assert FlattenFirst(node, n, path, labels) == FlattenFirst(node, n - 1, path, labels);
      } else {
        PathPruned(node, n, path);
        FlattenChildPruned(node, n, path, labels);
        FlattenNext(Pruned(node), k + 1, path, labels);
        OneForEachConcat(
          FlattenFirst(Pruned(node), k, path, labels), FlattenFirst(node, n - 1, path, labels), HollowsFirst(node, n - 1),
          FlattenChild(Pruned(node), k, path, labels), FlattenChild(node, n - 1, path, labels), HollowsChild(node, n - 1));
      }
    }
  }

  /** What a child that is not skipped contributes, as a leaf or as a node. */
  lemma ChildFlattens(node: Node, i: nat, path: string, labels: Labels)
    requires i < |node.children| && !Skipped(node.children[i])
    ensures var child := node.children[i];
            FlattenChild(node, i, path, labels) ==
            if child.children == [] then [Entry(PathOf(node, i, path), LeafText(node, child, labels))]
            else Flatten(child, PathOf(node, i, path), labels)
    ensures HollowsChild(node, i) == if Hollow(node.children[i]) then 1 else Hollows(node.children[i])
  {
    hide Flatten, PathOf, LeafText, Hollows;
  }

  lemma {:induction false} FlattenChildPruned(node: Node, n: nat, path: string, labels: Labels)
    requires IgnoredAreQuietIn(node.children) && 0 < n <= |node.children| && !Skipped(node.children[n - 1])
    ensures var m := |PrunedAll(node.children[..n])|;
            && 0 < m <= |Pruned(node).children|
            && OneForEach(FlattenChild(Pruned(node), m - 1, path, labels), FlattenChild(node, n - 1, path, labels),
                          HollowsChild(node, n - 1))
    decreases node, 0
  {
    hide FlattenChild, HollowsChild, Hollow, Hollows, PrunedAll, Pruned, PathOf, LeafText, IgnoredAreQuietIn, OneForEach;
    var child, m := node.children[n - 1], |PrunedAll(node.children[..n])|;
    PathPruned(node, n, path);
    QuietBelow(node, n - 1);
    LeafPruned(node, child, labels);
    ChildPruned(child);
    ChildFlattens(node, n - 1, path, labels);
    ChildFlattens(Pruned(node), m - 1, path, labels);
    SameForEach(FlattenChild(Pruned(node), m - 1, path, labels));
    OneForHollow(FlattenChild(Pruned(node), m - 1, path, labels));
    if Hollow(child) {
      HollowFlattensWhole(child, PathOf(node, n - 1, path), labels);
    } else if child.children != [] {
      FlattenPruned(child, PathOf(node, n - 1, path), labels);
    }
  }

  lemma QuietBelow(node: Node, i: nat)
    requires IgnoredAreQuietIn(node.children) && i < |node.children| && !Skipped(node.children[i])
    ensures IgnoredAreQuietIn(node.children[i].children)
  {
    QuietEach(node.children, i);
  }

  lemma ChildPruned(child: Node)
    ensures Hollow(child) <==> child.children != [] && Pruned(child).children == []
    ensures child.children == [] ==> Pruned(child).children == [] && Hollows(child) == 0
  {
  }

  lemma SameForEach(entries: seq<Entry>)
    ensures OneForEach(entries, entries, 0)
  {
  }

  lemma OneForHollow(entries: seq<Entry>)
    ensures |entries| == 1 ==> OneForEach(entries, [], 1)
  {
  }

  lemma HollowFlattensWhole(node: Node, path: string, labels: Labels)
    requires Hollow(node)
    ensures Flatten(node, path, labels) == []
  {
    assert node.children[..|node.children|] == node.children;
    HollowFlattens(node, path, labels, |node.children|);
  }

  /** Leaving out what is ignored leaves the contents as they were exactly when no element holds
      nothing but ignored ones. */
  lemma PruningLeavesContentsExactly(root: Node)
    requires IgnoredAreQuietIn(root.children)
    ensures Contents(Pruned(root)) == Contents(root) <==> Hollows(root) == 0
    ensures |Contents(Pruned(root))| == |Contents(root)| + Hollows(root)
  {
    DeclarationsPruned(root, "");
    FlattenPruned(root, "", LabelsOf(root));
    hide Pruned, Flatten, Hollows, Declarations, LabelAll;
  }

  /** So two emissions that differ in folios and in whatever is ignored, present or not, have the same
      contents exactly when every folio looked up and not declared is the same in both. */
  lemma ContentsSurviveWhateverIsIgnored(rho: Renaming, a: Node, b: Node)
    requires IgnoredAreQuietIn(a.children) && IgnoredAreQuietIn(b.children) && Hollows(a) == Hollows(b) == 0
    requires SecondEmission(rho, Pruned(a), Pruned(b))
    ensures Contents(a) == Contents(b) <==>
            forall p <- LookedUp(Pruned(a)) :: p in Declarations(a, "") || Fixes(rho, p)
  {
    PruningLeavesContentsExactly(a);
    PruningLeavesContentsExactly(b);
    DeclarationsPruned(a, "");
    ContentsSurviveExactly(rho, Pruned(a), Pruned(b));
    hide Pruned, Hollows, Contents, SecondEmission, LookedUp, Declarations, Fixes;
  }

  /** A remark inside a field hides the field: two emissions with the same contents but for that differ. */
  lemma RemarkHidesField(name: string, text: string, path: string)
    requires name != "" && name !in IGNORED
    ensures var remark := Node("", "", []);
            var plain, remarked := Node("DTE", "", [Node(name, text, [])]), Node("DTE", "", [Node(name, text, [remark])]);
            Pruned(remarked) == plain && |Contents(plain)| == 1 && Contents(remarked) == []
  {
    var remark := Node("", "", []);
    var field := Node(name, text, [remark]);
    var plain, remarked := Node("DTE", "", [Node(name, text, [])]), Node("DTE", "", [field]);
    assert PrunedAll([remark]) == [] && Pruned(field) == Node(name, text, []);
    assert PrunedAll([field]) == [Pruned(field)] + PrunedAll([]) == [Pruned(field)];
    assert Hollow(field) && HollowsChild(remarked, 0) == 1;
    assert HollowsFirst(remarked, 1) == HollowsFirst(remarked, 0) + HollowsChild(remarked, 0);
    RemarkIsQuiet(field, remark);
    PruningLeavesContentsExactly(remarked);
    hide Pruned, Hollows, LabelAll, LeafText, PathOf, IgnoredAreQuietIn;
    assert FlattenFirst(plain, 1, "", LabelsOf(plain)) ==
           FlattenFirst(plain, 0, "", LabelsOf(plain)) + FlattenChild(plain, 0, "", LabelsOf(plain));
  }

  lemma RemarkIsQuiet(field: Node, remark: Node)
    requires remark == Node("", "", []) && field.children == [remark] && !Skipped(field)
    ensures IgnoredAreQuietIn([field])
  {
    assert [remark][1..] == [] && [field][1..] == [];
    assert IgnoredAreQuietIn([remark]);
  }
}
